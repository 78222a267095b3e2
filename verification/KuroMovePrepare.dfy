/**
 Preparing a move: a copy of the source directory without one record and a copy
 of the destination with one more, both in fresh extents.
 */
module KuroMovePrepare {
  import opened Bytes
  import opened KuroDisk
  import opened KuroBitmap
  import opened KuroAlloc
  import opened KuroExtent
  import opened KuroInode
  import opened KuroDirectory
  import opened KuroDirFrame
  import opened KuroAppend
  import opened KuroAppendOp
  import opened KuroVersion
  import opened KuroRelease

  // ----- Images -----

  /** The decoding of whole records one after the other. */
  lemma {:induction false} DecodedConcat(g: Geometry, crc: Checksum, d: Disk, a: seq<Byte>, b: seq<Byte>)
    requires g.Valid(|d|) && |a| % 128 == 0 && |b| % 128 == 0
    ensures
      var x, y, z := Decoded(g, crc, d, a), Decoded(g, crc, d, b), Decoded(g, crc, d, a + b);
      && (z.Success? <==> x.Success? && y.Success?)
      && (z.Success? ==> z.value == x.value + y.value)
    decreases |b|
  {
    hide CheckedEntry;
    if b == [] {
      assert a + b == a;
    } else {
      var c := b[..|b| - 128];
      assert (a + b)[..|a + b| - 128] == a + c && (a + b)[|a + b| - 128..] == b[|b| - 128..];
      DecodedConcat(g, crc, d, a, c);
    }
  }

  lemma {:induction false} DecodedLength(g: Geometry, crc: Checksum, d: Disk, image: seq<Byte>)
    requires g.Valid(|d|) && |image| % 128 == 0 && Decoded(g, crc, d, image).Success?
    ensures |Decoded(g, crc, d, image).value| == |image| / 128
    decreases |image|
  {
    hide CheckedEntry;
    if image != [] {
      var n := |image| - 128;
      assert n >= 0 && n % 128 == 0 && n / 128 + 1 == |image| / 128;
      DecodedLength(g, crc, d, image[..n]);
      assert |Decoded(g, crc, d, image).value| == |Decoded(g, crc, d, image[..n]).value| + 1;
    }
  }

  function WithoutRecord(image: seq<Byte>, r: nat): seq<Byte>
    requires (r + 1) * 128 <= |image|
  {
    image[..r * 128] + image[(r + 1) * 128..]
  }

  function WithoutEntry(entries: seq<Entry>, r: nat): seq<Entry>
    requires r < |entries|
  {
    entries[..r] + entries[r + 1..]
  }

  /** Taking one record out of the bytes takes that entry out of the list. */
  lemma DecodedWithout(g: Geometry, crc: Checksum, d: Disk, image: seq<Byte>, list: seq<Entry>, r: nat)
    requires g.Valid(|d|) && |image| % 128 == 0 && Decoded(g, crc, d, image) == Success(list) && r < |list|
    ensures (r + 1) * 128 <= |image| && |list| * 128 == |image|
    ensures Decoded(g, crc, d, WithoutRecord(image, r)) == Success(WithoutEntry(list, r))
  {
    hide Decoded;
    DecodedLength(g, crc, d, image);
    var a, b, c := image[..r * 128], image[r * 128..(r + 1) * 128], image[(r + 1) * 128..];
    assert image == a + b + c;
    DecodedConcat(g, crc, d, a, b);
    DecodedConcat(g, crc, d, a + b, c);
    DecodedConcat(g, crc, d, a, c);
    var x, y, z := Decoded(g, crc, d, a).value, Decoded(g, crc, d, b).value, Decoded(g, crc, d, c).value;
    DecodedLength(g, crc, d, a);
    DecodedLength(g, crc, d, b);
    assert list == x + y + z && |x| == r && |y| == 1;
    assert list[..r] == x && list[r + 1..] == z;
  }

  // ----- Filling a fresh extent -----

  /** A fresh extent, free in d0, holds the first filled bytes of image. */
  ghost predicate Filling(g: Geometry, d0: Disk, d: Disk, first: U64, blocks: U64, image: seq<Byte>, filled: nat) {
    && OnlyGrew(g, d0, d) && FreeRun(g, d0, first, blocks) && ExtentStatus(g, d, first, blocks) == Ok
    && BitsAdded(g, d0, d, first, first + blocks)
    && first + blocks <= |d| && filled <= |image| <= blocks * 512
    && Flat(d, first, 0, filled) == image[..filled]
  }

  /** Writes into blocks free in d0 do no more than an allocation may. */
  lemma FreshIsGrow(
    g: Geometry, d0: Disk, d: Disk, ops: seq<Op>, first: U64, blocks: U64, offset: nat, length: nat)
    requires g.Valid(|d0|) && |d| == |d0| && FreeRun(g, d0, first, blocks) && offset + length <= blocks * 512
    requires WritesWithin(d, ops, first * 512 + offset, first * 512 + offset + length)
    ensures GrowOps(g, d0, ops)
  {
    hide Allocated;
    forall i | 0 <= i < |ops| ensures GrowOp(g, d0, ops[i]) {
      assert WriteWithin(d, ops[i], first * 512 + offset, first * 512 + offset + length);
    }
  }

  lemma GrowJoin(g: Geometry, d0: Disk, a: seq<Op>, b: seq<Op>)
    requires GrowOps(g, d0, a) && GrowOps(g, d0, b)
    ensures GrowOps(g, d0, a + b)
  {
    hide GrowOp;
  }

  lemma DataWriteBits(
    g: Geometry, d0: Disk, d: Disk, d': Disk, base: nat, bytes: seq<Byte>, first: nat, upTo: nat)
    requires g.Valid(|d|) && Patched(d, d', base, bytes) && base >= g.dataStart * 512
    requires BitsAdded(g, d0, d, first, upTo)
    ensures BitsAdded(g, d0, d', first, upTo)
  {
    hide SectorBit;
    PatchedSameOutside(d, d', base, bytes);
    SameOutsideLow(d, d', base, base + |bytes|, g.dataStart);
    forall y: nat | y < g.bitmapBlocks * 4096
      ensures Allocated(g, d', y) <==> Allocated(g, d0, y) || first <= y < upTo
    {
      assert Allocated(g, d, y) <==> Allocated(g, d0, y) || first <= y < upTo;
    }
  }

  /** Writes into the data area change no bit. */
  lemma DataKeepsBits(g: Geometry, d0: Disk, d: Disk, ops: seq<Op>, lo: nat, hi: nat, first: nat, upTo: nat)
    requires g.Valid(|d|) && lo >= g.dataStart * 512 && WritesWithin(d, ops, lo, hi) && BitsAdded(g, d0, d, first, upTo)
    ensures BitsAdded(g, d0, Apply(d, ops), first, upTo)
  {
    hide SectorBit;
    var P := (e: Disk) => |e| == |d| && forall b :: 0 <= b < g.dataStart ==> e[b] == d[b];
    forall e: Disk, i | 0 <= i < |ops| && P(e) ensures P(ApplyOp(e, ops[i])) {
      assert WriteWithin(d, ops[i], lo, hi);
    }
    ApplyInvariant(d, ops, P);
    forall y: nat | y < g.bitmapBlocks * 4096
      ensures Allocated(g, Apply(d, ops), y) <==> Allocated(g, d0, y) || first <= y < upTo
    {
      assert Allocated(g, d, y) <==> Allocated(g, d0, y) || first <= y < upTo;
    }
  }

  lemma FillStep(
    g: Geometry, d0: Disk, d: Disk, d': Disk, first: U64, blocks: U64, image: seq<Byte>, filled: nat, record: seq<Byte>)
    requires g.Valid(|d0|) && |d| == |d0| && Filling(g, d0, d, first, blocks, image, filled)
    requires filled + |record| <= |image| && record == image[filled..filled + |record|]
    requires Patched(d, d', first * 512 + filled, record) && OnlyGrew(g, d0, d')
    ensures Filling(g, d0, d', first, blocks, image, filled + |record|)
  {
    hide Patched, ExtentStatus, Allocated, OnlyGrew, BitsAdded;
    DataWriteBits(g, d0, d, d', first * 512 + filled, record, first, first + blocks);
    PatchedSameOutside(d, d', first * 512 + filled, record);
    DataWriteKeepsStatus(g, d, d', first * 512 + filled, record, first, blocks);
    PatchedKeepsOthers(d, d', first * 512 + filled, record, first, 0, filled);
    PatchedIsRead(d, d', first, filled, record);
    FlatJoin(d', first, filled, |record|);
    assert image[..filled + |record|] == image[..filled] + record;
  }

  /** Writes the next record of the image. */
  method WriteRecord(
    fs: FileSystem, ghost d0: Disk, ghost n: nat, first: U64, blocks: U64, ghost image: seq<Byte>, filled: U64,
    record: seq<Byte>)
    returns (status: Status)
    requires fs.Ready() && |fs.device.sectors| == |d0|
    requires n <= |fs.device.log| && fs.device.sectors == Apply(d0, fs.device.Since(n))
    requires GrowOps(fs.geometry, d0, fs.device.Since(n))
    requires Filling(fs.geometry, d0, fs.device.sectors, first, blocks, image, filled)
    requires |record| == 128 && filled + 128 <= |image| && record == image[filled..filled + 128]
    modifies fs.device
    ensures old(fs.device.log) <= fs.device.log
    ensures fs.device.sectors == Apply(d0, fs.device.Since(n))
    ensures GrowOps(fs.geometry, d0, fs.device.Since(n))
    ensures status == Ok ==>
      && Flushed(fs.device.Since(n))
      && Filling(fs.geometry, d0, fs.device.sectors, first, blocks, image, filled + 128)
    ensures BitsAdded(fs.geometry, d0, fs.device.sectors, first, first + blocks)
    ensures fs.device.reliable && fs.mounted ==> status == Ok
  {
    hide Apply, GrowOps, Patched, WritesWithin, FreeRun, ExtentStatus, OnlyGrew, Flat, BitsAdded;
    ghost var g, d, before, n1 := fs.geometry, fs.device.sectors, fs.device.Since(n), |fs.device.log|;
    status := WriteExtentData(fs, first, blocks, filled, record);
    Sequence(d0, fs.device.log, n, n1);
    assert fs.device.log[n..n1] == before;
    FreshIsGrow(g, d0, d, fs.device.Since(n1), first, blocks, filled, 128);
    assert first >= g.dataStart by { RunIsData(g, d0, first, blocks); }
    DataKeepsBits(
      g, d0, d, fs.device.Since(n1), first * 512 + filled, first * 512 + filled + 128, first, first + blocks);
    GrowJoin(g, d0, before, fs.device.Since(n1));
    if status == Ok {
      GrowApply(g, d0, fs.device.Since(n));
      FillStep(g, d0, d, fs.device.sectors, first, blocks, image, filled, record);
    }
  }

  lemma RunIsData(g: Geometry, d: Disk, first: nat, count: nat)
    requires FreeRun(g, d, first, count)
    ensures g.dataStart <= first && first + count <= g.totalBlocks
  {
  }

  // ----- Copying records -----

  /** While only free blocks were touched, a directory's records and their data are as they were. */
  lemma RecordReads(g: Geometry, crc: Checksum, d0: Disk, d: Disk, v: Version, index: U64)
    requires g.Valid(|d0|) && OnlyGrew(g, d0, d) && Carries(g, crc, d0, v)
    requires InodeAt(g, crc, d0, v.inode.id) == Success(v.inode) && index < v.inode.size / 128
    ensures EntryAt(g, crc, d, v.inode, index).Success?
    ensures (index + 1) * 128 <= |v.image|
    ensures DataAt(g, crc, d, v.inode, index * 128, 128) == Success(v.image[index * 128..(index + 1) * 128])
  {
    hide InodeAt, EntryAt, Flat, Decoded, KeepsDir, OnlyGrew, Readable, View, EntriesUpTo, InodeExtentStatus, DataAt;
    var dir := v.inode;
    CarriedView(g, crc, d0, v);
    GrewKeepsDir(g, d0, d, dir);
    KeepsView(g, crc, d0, d, dir);
    WholeView(g, crc, d, dir);
    EntriesPrefix(g, crc, d, dir, index, dir.size / 128);
    assert Readable(g, crc, d0, dir) by { ReadableDirectory(g, crc, d0, dir); }
    ChunkReads(g, crc, d0, d, dir, index * 128);
    RecordLength(g, crc, d, dir, index);
    ChunkIsOriginal(g, d0, d, dir, index * 128, 128);
    FlatSlice(d0, dir.extentStart, index * 128, 128, dir.size);
  }

  lemma RecordLength(g: Geometry, crc: Checksum, d: Disk, dir: Inode, index: U64)
    requires g.Valid(|d|) && index < dir.size / 128 && DataAt(g, crc, d, dir, index * 128, 128).Success?
    ensures |DataAt(g, crc, d, dir, index * 128, 128).value| == 128
  {
    hide InodeAt, Flat, InodeExtentStatus;
  }

  /** Checks one record, reads it and writes it at the end of the image so far. */
  method CopyRecord(
    fs: FileSystem, ghost d0: Disk, ghost n: nat, current: Inode, ghost v: Version, index: U64, first: U64, blocks: U64,
    ghost image: seq<Byte>, filled: U64)
    returns (status: Status)
    requires fs.Ready() && |fs.device.sectors| == |d0|
    requires n <= |fs.device.log| && fs.device.sectors == Apply(d0, fs.device.Since(n))
    requires GrowOps(fs.geometry, d0, fs.device.Since(n))
    requires Filling(fs.geometry, d0, fs.device.sectors, first, blocks, image, filled)
    requires Carries(fs.geometry, fs.checksum, d0, v) && v.inode == current
    requires InodeAt(fs.geometry, fs.checksum, d0, current.id) == Success(current) && index < current.size / 128
    requires filled + 128 <= |image| && (index + 1) * 128 <= |v.image|
    requires image[filled..filled + 128] == v.image[index * 128..(index + 1) * 128]
    modifies fs.device
    ensures old(fs.device.log) <= fs.device.log
    ensures fs.device.sectors == Apply(d0, fs.device.Since(n))
    ensures GrowOps(fs.geometry, d0, fs.device.Since(n))
    ensures status == Ok ==>
      && Flushed(fs.device.Since(n))
      && Filling(fs.geometry, d0, fs.device.sectors, first, blocks, image, filled + 128)
    ensures BitsAdded(fs.geometry, d0, fs.device.sectors, first, first + blocks)
    ensures fs.device.reliable && fs.mounted ==> status == Ok
  {
    hide Apply, GrowOps, OnlyGrew, Flat, InodeAt, EntryAt, DataAt, Carries, FreeRun, ExtentStatus, BitsAdded;
    RecordReads(fs.geometry, fs.checksum, d0, fs.device.sectors, v, index);
    var verified: Entry;
    status, verified := DirectoryEntryAt(fs, current, index);
    if status != Ok {
      return;
    }
    var record: seq<Byte>;
    status, record := ReadInodeData(fs, current, index * 128, 128);
    if status == Ok && |record| != 128 {
      status := CorruptDirectory;
    }
    if status == Ok {
      status := WriteRecord(fs, d0, n, first, blocks, image, filled, record);
    }
  }

  /** The records of v in order, leaving out the one at skip if there is one. */
  function Kept(v: Version, skip: nat): seq<Byte>
    requires |v.image| % 128 == 0
  {
    if skip * 128 < |v.image| then WithoutRecord(v.image, skip) else v.image
  }

  lemma KeptRecord(v: Version, skip: nat, index: nat)
    requires |v.image| % 128 == 0 && index * 128 < |v.image| && index != skip
    ensures
      var at := if index < skip then index else index - 1;
      && (at + 1) * 128 <= |Kept(v, skip)| && (index + 1) * 128 <= |v.image|
      && Kept(v, skip)[at * 128..(at + 1) * 128] == v.image[index * 128..(index + 1) * 128]
  {
  }

  /** Copies all records but the one at skip to the start of a fresh extent. */
  method CopyRecords(
    fs: FileSystem, ghost d0: Disk, ghost n: nat, current: Inode, ghost v: Version, skip: U64, first: U64, blocks: U64,
    ghost image: seq<Byte>)
    returns (status: Status)
    requires fs.Ready() && |fs.device.sectors| == |d0|
    requires n <= |fs.device.log| && fs.device.sectors == Apply(d0, fs.device.Since(n))
    requires GrowOps(fs.geometry, d0, fs.device.Since(n)) && Settled(fs.device.Since(n))
    requires Carries(fs.geometry, fs.checksum, d0, v) && v.inode == current
    requires InodeAt(fs.geometry, fs.checksum, d0, current.id) == Success(current)
    requires |v.image| == current.size && current.size % 128 == 0 && Kept(v, skip) <= image
    requires Filling(fs.geometry, d0, fs.device.sectors, first, blocks, image, 0)
    modifies fs.device
    ensures old(fs.device.log) <= fs.device.log
    ensures fs.device.sectors == Apply(d0, fs.device.Since(n))
    ensures GrowOps(fs.geometry, d0, fs.device.Since(n))
    ensures status == Ok ==>
      && Settled(fs.device.Since(n))
      && Filling(fs.geometry, d0, fs.device.sectors, first, blocks, image, |Kept(v, skip)|)
    ensures BitsAdded(fs.geometry, d0, fs.device.sectors, first, first + blocks)
    ensures fs.device.reliable && fs.mounted ==> status == Ok
  {
    hide Apply, GrowOps, Filling, InodeAt, Carries, BitsAdded;
    status := Ok;
    var index: U64, output: U64, count: U64 := 0, 0, current.size / 128;
    while index < count
      invariant 0 <= index <= count && output == if index <= skip then index else index - 1
      invariant old(fs.device.log) <= fs.device.log
      invariant fs.device.sectors == Apply(d0, fs.device.Since(n))
      invariant GrowOps(fs.geometry, d0, fs.device.Since(n)) && Settled(fs.device.Since(n))
      invariant Filling(fs.geometry, d0, fs.device.sectors, first, blocks, image, output * 128)
      invariant status == Ok
    {
      if index != skip {
        KeptRecord(v, skip, index);
        assert image[output * 128..(output + 1) * 128] == Kept(v, skip)[output * 128..(output + 1) * 128];
        status := CopyRecord(fs, d0, n, current, v, index, first, blocks, image, output * 128);
        if status != Ok {
          return;
        }
        output := output + 1;
      }
      index := index + 1;
    }
    assert output * 128 == |Kept(v, skip)|;
    FillingAdds(fs.geometry, d0, fs.device.sectors, first, blocks, image, output * 128);
  }

  lemma FillingAdds(g: Geometry, d0: Disk, d: Disk, first: U64, blocks: U64, image: seq<Byte>, filled: nat)
    requires Filling(g, d0, d, first, blocks, image, filled)
    ensures BitsAdded(g, d0, d, first, first + blocks)
  {
  }

  /** Giving back an extent that was free in d0 is, seen from d0, no more than an allocation may do. */
  lemma ClearIsGrow(g: Geometry, d0: Disk, d: Disk, ops: seq<Op>, first: U64, blocks: U64)
    requires g.Valid(|d0|) && OnlyGrew(g, d0, d) && FreeRun(g, d0, first, blocks)
    requires ClearOps(g, d, ops, first, first + blocks)
    ensures GrowOps(g, d0, ops)
  {
    hide SectorBit;
    forall i | 0 <= i < |ops| ensures GrowOp(g, d0, ops[i]) {
      var op := ops[i];
      assert ClearOp(g, d, op, first, first + blocks);
      if op.Write? {
        forall z: nat | SectorBit(d0[op.block], z) ensures SectorBit(op.data, z) {
          SameBit(g, d0, d, op, first, blocks, z);
        }
      }
    }
  }

  lemma SameBit(g: Geometry, d0: Disk, d: Disk, op: Op, first: U64, blocks: U64, z: nat)
    requires g.Valid(|d0|) && OnlyGrew(g, d0, d) && FreeRun(g, d0, first, blocks)
    requires op.Write? && ClearOp(g, d, op, first, first + blocks) && SectorBit(d0[op.block], z)
    ensures SectorBit(op.data, z)
  {
    hide Bit;
    var y := (op.block - g.bitmapStart) * 4096 + z % 4096;
    assert y / 4096 == op.block - g.bitmapStart && y % 4096 == z % 4096;
    assert Allocated(g, d0, y);
    assert Allocated(g, d, y);
  }

  /** Releases a fresh extent after a failure; the failure is reported unless the release fails too. */
  method GiveBack(fs: FileSystem, ghost d0: Disk, ghost n: nat, first: U64, blocks: U64, failure: Status)
    returns (status: Status)
    requires fs.Ready() && |fs.device.sectors| == |d0| && failure != Ok
    requires n <= |fs.device.log| && fs.device.sectors == Apply(d0, fs.device.Since(n))
    requires GrowOps(fs.geometry, d0, fs.device.Since(n)) && (blocks != 0 ==> FreeRun(fs.geometry, d0, first, blocks))
    modifies fs.device
    ensures old(fs.device.log) <= fs.device.log
    ensures fs.device.sectors == Apply(d0, fs.device.Since(n))
    ensures GrowOps(fs.geometry, d0, fs.device.Since(n))
    ensures status != Ok
    ensures blocks == 0 || ExtentStatus(fs.geometry, old(fs.device.sectors), first, blocks) == Ok ==>
      status in {failure, BlockDeviceError}
    ensures status != BlockDeviceError && BitsAdded(fs.geometry, d0, old(fs.device.sectors), first, first + blocks) ==>
      blocks * 512 <= UINT64_MAX ==> SameBits(fs.geometry, d0, fs.device.sectors)
  {
    hide Apply, GrowOps, FreeRun, OnlyGrew, ClearOps, BitsAdded, SameBits, Cleared, ExtentStatus;
    ghost var n1, before, d := |fs.device.log|, fs.device.Since(n), fs.device.sectors;
    GrowApply(fs.geometry, d0, before);
    status := ReleaseMoveExtent(fs, first, blocks);
    Sequence(d0, fs.device.log, n, n1);
    assert fs.device.log[n..n1] == before;
    ReleasedIsGrow(fs.geometry, d0, d, fs.device.Since(n1), first, blocks);
    GrowJoin(fs.geometry, d0, before, fs.device.Since(n1));
    GaveBack(fs.geometry, d0, d, fs.device.sectors, first, blocks);
    if status == Ok {
      status := failure;
    }
  }

  /** A fresh extent is owned, and with it given back the bits are what they were. */
  lemma GaveBack(g: Geometry, d0: Disk, d: Disk, d': Disk, first: U64, blocks: U64)
    requires g.Valid(|d0|) && |d| == |d0| && (blocks != 0 ==> FreeRun(g, d0, first, blocks))
    ensures BitsAdded(g, d0, d, first, first + blocks) && 0 < blocks && blocks * 512 <= UINT64_MAX ==>
      ExtentStatus(g, d, first, blocks) == Ok
    ensures BitsAdded(g, d0, d, first, first + blocks) && Cleared(g, d, d', first, first + blocks) ==>
      SameBits(g, d0, d')
  {
    hide SectorBit;
    if BitsAdded(g, d0, d, first, first + blocks) {
      forall y | first <= y < first + blocks ensures Allocated(g, d, y) && !Allocated(g, d0, y) {
        BitmapIndex(g, y);
      }
    }
  }

  lemma ReleasedIsGrow(g: Geometry, d0: Disk, d: Disk, ops: seq<Op>, first: U64, blocks: U64)
    requires g.Valid(|d0|) && OnlyGrew(g, d0, d) && (blocks != 0 ==> FreeRun(g, d0, first, blocks))
    requires ClearOps(g, d, ops, first, first + blocks) && (blocks == 0 ==> ops == [])
    ensures GrowOps(g, d0, ops)
  {
    hide OnlyGrew, FreeRun, ClearOps, GrowOp;
    if blocks != 0 {
      ClearIsGrow(g, d0, d, ops, first, blocks);
    }
  }

  // ----- The two preparations -----

  /** after is the directory's next version, in a fresh first-fit extent of its own or in none if it is empty. */
  ghost predicate NextVersion(
    g: Geometry, crc: Checksum, d0: Disk, d: Disk, current: Inode, candidate: Inode, after: Version)
    requires g.Valid(|d0|)
  {
    && OnlyGrew(g, d0, d) && Carries(g, crc, d, after)
    && BitsAdded(g, d0, d, candidate.extentStart, candidate.extentStart + candidate.extentBlocks)
    && current.revision < UINT32_MAX && after.inode == candidate.(revision := current.revision + 1)
    && candidate == current.(size := candidate.size, extentStart := candidate.extentStart,
                             extentBlocks := candidate.extentBlocks)
    && candidate.extentBlocks == DivideRoundUp(candidate.size, 512)
    && if candidate.extentBlocks == 0 then candidate.extentStart == 0
       else FirstFit(g, d0, candidate.extentStart, candidate.extentBlocks)
  }

  lemma FillStart(g: Geometry, d0: Disk, ops: seq<Op>, first: U64, blocks: U64, image: seq<Byte>)
    requires g.Valid(|d0|) && GrowOps(g, d0, ops) && Issued(g, d0, ops, Extent(first, blocks))
    requires |image| <= blocks * 512
    ensures |Apply(d0, ops)| == |d0| && Filling(g, d0, Apply(d0, ops), first, blocks, image, 0)
  {
    hide Allocated, Apply, OnlyGrew, BitsAdded;
    GrowApply(g, d0, ops);
  }

  /** A filled extent is the directory's next version. */
  lemma FilledVersion(
    g: Geometry, crc: Checksum, d0: Disk, d: Disk, current: Inode, first: U64, blocks: U64, size: U64,
    image: seq<Byte>, list: seq<Entry>)
    returns (candidate: Inode, after: Version)
    requires g.Valid(|d0|) && |d| == |d0| && InodeAt(g, crc, d0, current.id) == Success(current)
    requires current.kind == DIRECTORY && current.revision < UINT32_MAX
    requires |image| == size && size % 128 == 0 && blocks == DivideRoundUp(size, 512) && 0 < blocks
    requires Filling(g, d0, d, first, blocks, image, size) && FirstFit(g, d0, first, blocks)
    requires Decoded(g, crc, d0, image) == Success(list)
    ensures candidate == current.(size := size, extentStart := first, extentBlocks := blocks) && after.list == list
    ensures NextVersion(g, crc, d0, d, current, candidate, after)
  {
    hide InodeAt, Decoded, Flat, FirstFit, AllAllocated, BitsAdded;
    candidate := current.(size := size, extentStart := first, extentBlocks := blocks);
    after := Version(candidate.(revision := current.revision + 1), image, list);
    assert image[..size] == image;
    GrewTable(g, d0, d);
    TableSameChildren(g, crc, d0, d);
    DecodedTransfer(g, crc, d0, d, image);
  }

  lemma GrewTable(g: Geometry, d0: Disk, d: Disk)
    requires g.Valid(|d0|) && OnlyGrew(g, d0, d)
    ensures TableSame(g, d0, d)
  {
  }

  /** Allocates a fresh extent and fills it with the kept records and the extra bytes, or gives it back. */
  method FillFresh(
    fs: FileSystem, current: Inode, ghost v: Version, skip: U64, extra: seq<Byte>, blocks: U64, ghost image: seq<Byte>)
    returns (status: Status, first: U64)
    requires fs.Ready() && Carries(fs.geometry, fs.checksum, fs.device.sectors, v) && v.inode == current
    requires InodeAt(fs.geometry, fs.checksum, fs.device.sectors, current.id) == Success(current)
    requires |v.image| == current.size && current.size % 128 == 0 && 0 < blocks
    requires image == Kept(v, skip) + extra && |image| <= blocks * 512 && |image| <= UINT64_MAX
    requires extra == [] || (|extra| == 128 && Kept(v, skip) == v.image)
    modifies fs.device
    ensures old(fs.device.log) <= fs.device.log
    ensures fs.device.sectors == Apply(old(fs.device.sectors), fs.device.Since(|old(fs.device.log)|))
    ensures GrowOps(fs.geometry, old(fs.device.sectors), fs.device.Since(|old(fs.device.log)|))
    ensures status == Ok ==>
      && Settled(fs.device.Since(|old(fs.device.log)|)) && |fs.device.sectors| == |old(fs.device.sectors)|
      && Filling(fs.geometry, old(fs.device.sectors), fs.device.sectors, first, blocks, image, |image|)
      && FirstFit(fs.geometry, old(fs.device.sectors), first, blocks)
    ensures fs.device.reliable && fs.mounted && blocks * 512 <= UINT64_MAX ==>
      (exists t: nat :: FreeRun(fs.geometry, old(fs.device.sectors), t, blocks)) ==> status == Ok
    ensures status !in {Ok, BlockDeviceError, ArithmeticOverflow} ==>
      SameBits(fs.geometry, old(fs.device.sectors), fs.device.sectors)
  {
    hide Apply, GrowOps, Filling, InodeAt, Carries, FreeRun, OnlyGrew, Kept, ExtentStatus, AllAllocated,
         ZeroSectors, ClearOps, BitsAdded, SameBits;
    var g := fs.geometry;
    ghost var d0, n := fs.device.sectors, |fs.device.log|;
    ApplyNothing(d0);
    assert SameBits(g, d0, d0) by { NothingGrows(g, d0); }
    status, first := AllocateBlocks(fs, blocks);
    if status != Ok {
      assert fs.device.log == old(fs.device.log) ==> fs.device.Since(n) == [];
      return;
    }
    FillStart(g, d0, fs.device.Since(n), first, blocks, image);
    status := CopyRecords(fs, d0, n, current, v, skip, first, blocks, image);
    if status == Ok && extra != [] {
      assert image[current.size..current.size + 128] == extra;
      status := WriteRecord(fs, d0, n, first, blocks, image, current.size, extra);
    }
    if status != Ok {
      status := GiveBack(fs, d0, n, first, blocks, status);
    }
  }

  method PrepareWithout(fs: FileSystem, current: Inode, removed: U64, ghost v: Version)
    returns (status: Status, candidate: Inode, ghost after: Version)
    requires fs.Ready() && Carries(fs.geometry, fs.checksum, fs.device.sectors, v) && v.inode == current
    requires InodeAt(fs.geometry, fs.checksum, fs.device.sectors, current.id) == Success(current)
    requires removed < |v.list| && current.revision < UINT32_MAX
    modifies fs.device
    ensures old(fs.device.log) <= fs.device.log
    ensures fs.device.sectors == Apply(old(fs.device.sectors), fs.device.Since(|old(fs.device.log)|))
    ensures GrowOps(fs.geometry, old(fs.device.sectors), fs.device.Since(|old(fs.device.log)|))
    ensures status == Ok ==>
      && Settled(fs.device.Since(|old(fs.device.log)|)) && |fs.device.sectors| == |old(fs.device.sectors)|
      && candidate.size + 128 == current.size && after.list == WithoutEntry(v.list, removed)
      && NextVersion(fs.geometry, fs.checksum, old(fs.device.sectors), fs.device.sectors, current, candidate, after)
    ensures fs.device.reliable && fs.mounted ==>
      Room(fs.geometry, old(fs.device.sectors), current.size - 128) ==> status == Ok
    ensures status !in {Ok, BlockDeviceError, ArithmeticOverflow} ==>
      SameBits(fs.geometry, old(fs.device.sectors), fs.device.sectors)
  {
    hide Apply, GrowOps, Filling, InodeAt, FreeRun, OnlyGrew, Kept, FirstFit, Decoded, WithoutEntry, WithoutRecord,
         DirSound, SameBits;
    var g := fs.geometry;
    ghost var d0, n, crc := fs.device.sectors, |fs.device.log|, fs.checksum;
    ApplyNothing(d0);
    assert fs.device.Since(n) == [] && |v.image| == current.size;
    candidate, after := current, v;
    DecodedWithout(g, crc, d0, v.image, v.list, removed);
    var newSize := current.size - 128;
    var newBlocks := DivideRoundUp(newSize, 512);
    ghost var image := WithoutRecord(v.image, removed);
    assert Kept(v, removed) == image && |image| == newSize by { KeptIs(v, removed); }
    assert GrowOps(g, d0, []) by { NothingGrows(g, d0); }
    if newBlocks == 0 {
      after := EmptyVersion(g, crc, d0, current, image, WithoutEntry(v.list, removed));
      candidate := current.(size := 0, extentStart := 0, extentBlocks := 0);
      return Ok, candidate, after;
    }
    var first: U64;
    assert image + [] == image;
    status, first := FillFresh(fs, current, v, removed, [], newBlocks, image);
    if status != Ok {
      return;
    }
    candidate := current.(size := newSize, extentStart := first, extentBlocks := newBlocks);
    ghost var c;
    c, after := FilledVersion(
      g, crc, d0, fs.device.sectors, current, first, newBlocks, newSize, image, WithoutEntry(v.list, removed));
  }

  lemma KeptIs(v: Version, r: nat)
    requires |v.image| % 128 == 0 && (r + 1) * 128 <= |v.image|
    ensures Kept(v, r) == WithoutRecord(v.image, r) && |Kept(v, r)| == |v.image| - 128
  {
  }

  lemma NothingGrows(g: Geometry, d: Disk)
    ensures GrowOps(g, d, []) && OnlyGrew(g, d, d) && SameBits(g, d, d)
  {
  }

  lemma EmptyVersion(g: Geometry, crc: Checksum, d: Disk, current: Inode, image: seq<Byte>, list: seq<Entry>)
    returns (after: Version)
    requires g.Valid(|d|) && InodeAt(g, crc, d, current.id) == Success(current) && current.kind == DIRECTORY
    requires current.revision < UINT32_MAX && image == [] && Decoded(g, crc, d, image) == Success(list)
    ensures after.list == list
    ensures NextVersion(g, crc, d, d, current, current.(size := 0, extentStart := 0, extentBlocks := 0), after)
  {
    hide InodeAt, SectorBit;
    NothingGrows(g, d);
    after := Version(
      current.(size := 0, extentStart := 0, extentBlocks := 0, revision := current.revision + 1), [], list);
  }

  /** A fresh extent for that many bytes can be had. */
  ghost predicate Room(g: Geometry, d: Disk, size: nat) {
    var blocks := DivideRoundUp(size, 512);
    blocks == 0 || (blocks * 512 <= UINT64_MAX && exists t: nat :: FreeRun(g, d, t, blocks))
  }

  method PrepareWith(fs: FileSystem, current: Inode, entry: Entry, ghost v: Version)
    returns (status: Status, candidate: Inode, ghost after: Version)
    requires fs.Ready() && Carries(fs.geometry, fs.checksum, fs.device.sectors, v) && v.inode == current
    requires InodeAt(fs.geometry, fs.checksum, fs.device.sectors, current.id) == Success(current)
    requires EntryAcceptable(entry)
    requires ChildMatches(InodeAt(fs.geometry, fs.checksum, fs.device.sectors, entry.inodeId), entry)
    requires current.revision < UINT32_MAX
    modifies fs.device
    ensures old(fs.device.log) <= fs.device.log
    ensures fs.device.sectors == Apply(old(fs.device.sectors), fs.device.Since(|old(fs.device.log)|))
    ensures GrowOps(fs.geometry, old(fs.device.sectors), fs.device.Since(|old(fs.device.log)|))
    ensures status == Ok ==>
      && Settled(fs.device.Since(|old(fs.device.log)|)) && |fs.device.sectors| == |old(fs.device.sectors)|
      && candidate.size == current.size + 128 && after.list == v.list + [entry]
      && NextVersion(fs.geometry, fs.checksum, old(fs.device.sectors), fs.device.sectors, current, candidate, after)
    ensures fs.device.reliable && fs.mounted && current.size + 128 <= UINT64_MAX ==>
      Room(fs.geometry, old(fs.device.sectors), current.size + 128) ==> status == Ok
    ensures status !in {Ok, BlockDeviceError, ArithmeticOverflow} ==>
      SameBits(fs.geometry, old(fs.device.sectors), fs.device.sectors)
  {
    hide Apply, GrowOps, Filling, InodeAt, FreeRun, OnlyGrew, Kept, FirstFit, Decoded, DirSound, EncodeRecord,
         EntryAcceptable, SameBits;
    var g := fs.geometry;
    ghost var d0, n, crc := fs.device.sectors, |fs.device.log|, fs.checksum;
    ApplyNothing(d0);
    assert fs.device.Since(n) == [] && |v.image| == current.size;
    candidate, after := current, v;
    assert GrowOps(g, d0, []) by { NothingGrows(g, d0); }
    var newSize := AddU64(current.size, 128);
    if newSize.Failure? {
      return ArithmeticOverflow, candidate, after;
    }
    var newBlocks := DivideRoundUp(newSize.value, 512);
    assert |entry.name| <= 63 by { NameFits(entry); }
    var record := EncodeRecord(fs.checksum, entry);
    ghost var image := v.image + record;
    assert Kept(v, current.size / 128) == v.image by { KeptAll(v); }
    WithRecord(g, crc, d0, v, entry);
    var first: U64;
    status, first := FillFresh(fs, current, v, current.size / 128, record, newBlocks, image);
    if status != Ok {
      return;
    }
    candidate := current.(size := newSize.value, extentStart := first, extentBlocks := newBlocks);
    ghost var c;
    c, after := FilledVersion(
      g, crc, d0, fs.device.sectors, current, first, newBlocks, newSize.value, image, v.list + [entry]);
  }

  lemma KeptAll(v: Version)
    requires |v.image| % 128 == 0
    ensures Kept(v, |v.image| / 128) == v.image
  {
  }

  lemma WithRecord(g: Geometry, crc: Checksum, d: Disk, v: Version, entry: Entry)
    requires g.Valid(|d|) && Carries(g, crc, d, v) && EntryAcceptable(entry) && |entry.name| <= 63
    requires ChildMatches(InodeAt(g, crc, d, entry.inodeId), entry)
    ensures Decoded(g, crc, d, v.image + EncodeRecord(crc, entry)) == Success(v.list + [entry])
  {
    hide InodeAt, CheckedEntry, EncodeRecord, EntryAcceptable, Flat;
    var record := EncodeRecord(crc, entry);
    var image := v.image + record;
    assert image[..|image| - 128] == v.image && image[|image| - 128..] == record;
    assert SameChildren(g, crc, d, d);
    NewRecordReads(g, crc, d, d, entry);
  }
}
