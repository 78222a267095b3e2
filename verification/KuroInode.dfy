/**
 Inode records: their encoding, lookup in the inode table, revision-checked
 publication and reading of file contents.
 */
module KuroInode {
  import opened Bytes
  import opened KuroDisk
  import opened KuroBitmap
  import opened KuroAlloc
  import opened KuroExtent

  const REGULAR: U32 := 1
  const DIRECTORY: U32 := 2

  datatype Inode = Inode(
    id: U64, kind: U32, flags: U32, size: U64, extentStart: U64, extentBlocks: U64,
    linkCount: U32, generation: U32, revision: U32)

  // ----- Encoding -----

  function InodeBody(i: Inode): (r: seq<Byte>)
    ensures |r| == 124
  {
    StoreU64(i.id) + StoreU32(i.kind) + StoreU32(i.flags) + StoreU64(i.size) + StoreU64(i.extentStart)
    + StoreU64(i.extentBlocks) + StoreU32(i.linkCount) + StoreU32(i.generation) + StoreU32(i.revision) + Zeros(72)
  }

  function EncodeInode(crc: seq<Byte> -> U32, i: Inode): (r: seq<Byte>)
    ensures |r| == 128
  {
    InodeBody(i) + StoreU32(crc(InodeBody(i)))
  }

  predicate Acceptable(i: Inode, expectedId: U64) {
    i.id == expectedId && (i.kind == REGULAR || i.kind == DIRECTORY) && i.linkCount != 0 && i.generation != 0
  }

  /** Images written before revisions existed hold zero there; that counts as the first revision. */
  function Normalized(i: Inode): Inode {
    if i.revision == 0 then i.(revision := 1) else i
  }

  function RawInode(bytes: seq<Byte>): Inode
    requires |bytes| == 128
  {
    Inode(LoadU64(bytes[0..8]), LoadU32(bytes[8..12]), LoadU32(bytes[12..16]), LoadU64(bytes[16..24]),
          LoadU64(bytes[24..32]), LoadU64(bytes[32..40]), LoadU32(bytes[40..44]), LoadU32(bytes[44..48]),
          LoadU32(bytes[48..52]))
  }

  function DecodeInode(crc: seq<Byte> -> U32, bytes: seq<Byte>, expectedId: U64): (r: Result<Inode>)
    requires |bytes| == 128
    ensures r.Success? ==> Acceptable(r.value, expectedId) && r.value.revision != 0
    ensures r.Failure? ==> r.error == InvalidRootInode
  {
    if LoadU32(bytes[124..128]) != crc(bytes[..124]) then Failure(InvalidRootInode)
    else
      var inode := Normalized(RawInode(bytes));
      if Acceptable(inode, expectedId) then Success(inode) else Failure(InvalidRootInode)
  }

  lemma RawOfEncoded(crc: seq<Byte> -> U32, i: Inode)
    ensures RawInode(EncodeInode(crc, i)) == i
  {
    hide StoreU64, StoreU32, LoadU64, LoadU32, Zeros;
    var e := EncodeInode(crc, i);
    assert e[0..8] == StoreU64(i.id) && e[8..12] == StoreU32(i.kind) && e[12..16] == StoreU32(i.flags);
    assert e[16..24] == StoreU64(i.size) && e[24..32] == StoreU64(i.extentStart);
    assert e[32..40] == StoreU64(i.extentBlocks) && e[40..44] == StoreU32(i.linkCount);
    assert e[44..48] == StoreU32(i.generation) && e[48..52] == StoreU32(i.revision);
    U64RoundTrip(i.id);
    U32RoundTrip(i.kind);
    U32RoundTrip(i.flags);
    U64RoundTrip(i.size);
    U64RoundTrip(i.extentStart);
    U64RoundTrip(i.extentBlocks);
    U32RoundTrip(i.linkCount);
    U32RoundTrip(i.generation);
    U32RoundTrip(i.revision);
  }

  /** A stored inode reads back as itself; a stored revision zero reads back as revision one. */
  lemma InodeRoundTrip(crc: seq<Byte> -> U32, i: Inode, expectedId: U64)
    ensures DecodeInode(crc, EncodeInode(crc, i), expectedId)
         == if Acceptable(i, expectedId) then Success(Normalized(i)) else Failure(InvalidRootInode)
  {
    var e := EncodeInode(crc, i);
    assert e[..124] == InodeBody(i) && e[124..128] == StoreU32(crc(InodeBody(i)));
    U32RoundTrip(crc(InodeBody(i)));
    RawOfEncoded(crc, i);
  }

  // ----- The inode table -----

  function InodeBlock(g: Geometry, id: nat): nat
    requires id > 0
  {
    g.inodeTableStart + (id - 1) * 128 / 512
  }

  function InodeOffset(id: nat): nat
    requires id > 0
    ensures InodeOffset(id) + 128 <= 512
  {
    (id - 1) * 128 % 512
  }

  lemma InodeBlockInTable(g: Geometry, id: nat)
    requires g.Valid(g.totalBlocks) && 0 < id <= g.inodeCount
    ensures g.InInodeTable(InodeBlock(g, id)) && InodeBlock(g, id) < g.bitmapStart <= g.dataStart < g.totalBlocks
  {
  }

  /** The inode the table holds, or why it cannot be read. */
  function InodeAt(g: Geometry, crc: seq<Byte> -> U32, d: Disk, id: U64): (r: Result<Inode>)
    requires g.Valid(|d|)
    ensures r.Success? ==> Acceptable(r.value, id) && r.value.revision != 0 && 0 < id <= g.inodeCount
    ensures r.Failure? ==> r.error == InvalidArgument || r.error == InvalidRootInode
  {
    if id == 0 || id > g.inodeCount then Failure(InvalidArgument)
    else
      InodeBlockInTable(g, id);
      DecodeInode(crc, d[InodeBlock(g, id)][InodeOffset(id)..InodeOffset(id) + 128], id)
  }

  method ReadInode(fs: FileSystem, id: U64) returns (status: Status, inode: Inode)
    requires fs.Ready()
    ensures status == Ok ==> fs.mounted && InodeAt(fs.geometry, fs.checksum, fs.device.sectors, id) == Success(inode)
    ensures status != Ok && status != BlockDeviceError && fs.mounted ==>
      InodeAt(fs.geometry, fs.checksum, fs.device.sectors, id) == Failure(status)
    ensures !fs.mounted ==> status == if id == 0 then InvalidArgument else NotMounted
    ensures fs.device.reliable ==> status != BlockDeviceError
  {
    hide DecodeInode;
    inode := Inode(0, 0, 0, 0, 0, 0, 0, 0, 0);
    if id == 0 {
      return InvalidArgument, inode;
    }
    if !fs.mounted {
      return NotMounted, inode;
    }
    if id > fs.geometry.inodeCount {
      return InvalidArgument, inode;
    }
    InodeBlockInTable(fs.geometry, id);
    var relativeBlock, offset := (id - 1) * 128 / 512, InodeOffset(id);
    if offset + 128 > 512 || relativeBlock >= fs.geometry.inodeTableBlocks {
      return InvalidGeometry, inode;
    }
    var sector: Sector;
    status, sector := fs.device.Read(fs.geometry.inodeTableStart + relativeBlock);
    if status != Ok {
      return;
    }
    var decoded := DecodeInode(fs.checksum, sector[offset..offset + 128], id);
    if decoded.Failure? {
      return decoded.error, inode;
    }
    return Ok, decoded.value;
  }

  // ----- Extent ownership -----

  ghost function InodeExtentStatus(g: Geometry, d: Disk, i: Inode): (s: Status)
    ensures s == Ok ==> Acceptable(i, i.id)
    ensures s == Ok || s == InvalidArgument || s == InvalidExtent || s == ArithmeticOverflow
  {
    if i.id == 0 || i.id > g.inodeCount || (i.kind != REGULAR && i.kind != DIRECTORY)
       || i.linkCount == 0 || i.generation == 0 then InvalidArgument
    else
      var s := ExtentStatus(g, d, i.extentStart, i.extentBlocks);
      if s != Ok then s else if i.size > i.extentBlocks * 512 then InvalidExtent else Ok
  }

  method ValidateInodeExtent(fs: FileSystem, i: Inode) returns (status: Status)
    requires fs.Ready()
    ensures status == BlockDeviceError || status == InodeExtentStatus(fs.geometry, fs.device.sectors, i)
    ensures fs.device.reliable ==> status != BlockDeviceError
  {
    if i.id == 0 || i.id > fs.geometry.inodeCount || (i.kind != REGULAR && i.kind != DIRECTORY)
       || i.linkCount == 0 || i.generation == 0 {
      return InvalidArgument;
    }
    var capacity: U64;
    status, capacity := ValidateAllocatedExtent(fs, i.extentStart, i.extentBlocks);
    if status != Ok {
      return;
    }
    if i.size > capacity || (i.extentBlocks == 0 && i.size != 0) {
      return InvalidExtent;
    }
  }

  // ----- Ownership flags -----

  const PENDING: U32 := 1
  const ORPHAN: U32 := 2

  predicate ValidFlags(flags: U32) {
    flags == 0 || flags == PENDING || flags == ORPHAN
  }

  /** An inode with these flags may be stored on a volume with these features. */
  predicate FlagsAllowed(flags: U32, features: U64) {
    ValidFlags(flags) && (flags == 0 || features / 2 % 2 == 1)
  }

  // ----- Publication -----

  predicate SameIncarnation(current: Inode, i: Inode) {
    current.generation == i.generation && current.revision == i.revision && current.kind == i.kind
  }

  /** The table has moved on since i was read. */
  predicate IsStale(g: Geometry, crc: seq<Byte> -> U32, d: Disk, i: Inode)
    requires g.Valid(|d|)
  {
    var read := InodeAt(g, crc, d, i.id);
    read.Success? && !SameIncarnation(read.value, i)
  }

  /** The single sector write that publishes i. */
  function PublishOp(g: Geometry, crc: seq<Byte> -> U32, d: Disk, i: Inode): (op: Op)
    requires g.Valid(|d|) && 0 < i.id <= g.inodeCount
    ensures op.Write? && op.block < |d|
  {
    InodeBlockInTable(g, i.id);
    Op.Write(InodeBlock(g, i.id), Splice(d[InodeBlock(g, i.id)], InodeOffset(i.id), EncodeInode(crc, i)))
  }

  /** The inode may be published: it was read from the current revision and owns only allocated blocks. */
  ghost predicate MayPublish(g: Geometry, crc: seq<Byte> -> U32, d: Disk, i: Inode)
    requires g.Valid(|d|)
  {
    && InodeAt(g, crc, d, i.id).Success?
    && SameIncarnation(InodeAt(g, crc, d, i.id).value, i)
    && i.revision != UINT32_MAX
    && InodeExtentStatus(g, d, i) == Ok
  }

  /** One update: nothing happens unless it may publish, and then only one sector is written. */
  ghost predicate UpdateSpec(
    g: Geometry, crc: seq<Byte> -> U32, d0: Disk, i: Inode, ops: seq<Op>, result: Result<Inode>)
    requires g.Valid(|d0|)
  {
    if !MayPublish(g, crc, d0, i) then ops == [] && result.Failure?
    else
      var w := PublishOp(g, crc, d0, i.(revision := i.revision + 1));
      if result.Success? then ops == [w, Flush] && result.value == i.(revision := i.revision + 1)
      else ops == [] || ops == [w]
  }

  /** Rewrites one inode slot in place and flushes. */
  method StoreInode(fs: FileSystem, candidate: Inode) returns (status: Status)
    requires fs.Ready() && 0 < candidate.id <= fs.geometry.inodeCount
    modifies fs.device
    ensures old(fs.device.log) <= fs.device.log
    ensures fs.device.sectors == Apply(old(fs.device.sectors), fs.device.Since(|old(fs.device.log)|))
    ensures
      var w, ops := PublishOp(fs.geometry, fs.checksum, old(fs.device.sectors), candidate),
                    fs.device.Since(|old(fs.device.log)|);
      if status == Ok then ops == [w, Flush] else ops == [] || ops == [w]
    ensures fs.device.reliable ==> status == Ok
  {
    hide EncodeInode, Splice, Apply;
    ghost var d0, n := fs.device.sectors, |fs.device.log|;
    assert fs.device.Since(n) == [];
    ApplyNothing(d0);
    InodeBlockInTable(fs.geometry, candidate.id);
    var tableBlock, offset := InodeBlock(fs.geometry, candidate.id), InodeOffset(candidate.id);
    var sector: Sector;
    status, sector := fs.device.Read(tableBlock);
    if status == Ok {
      sector := Splice(sector, offset, EncodeInode(fs.checksum, candidate));
      status := WriteOne(fs, d0, n, tableBlock, sector);
      if status == Ok {
        status := FlushAll(fs, d0, n);
      }
    }
  }

  method UpdateInode(fs: FileSystem, inode: Inode) returns (status: Status, updated: Inode)
    requires fs.Ready()
    modifies fs.device
    ensures old(fs.device.log) <= fs.device.log
    ensures fs.device.sectors == Apply(old(fs.device.sectors), fs.device.Since(|old(fs.device.log)|))
    ensures UpdateSpec(
      fs.geometry, fs.checksum, old(fs.device.sectors), inode, fs.device.Since(|old(fs.device.log)|),
      if status == Ok then Success(updated) else Failure(status))
    ensures status != Ok ==> updated == inode
    ensures fs.mounted && IsStale(fs.geometry, fs.checksum, old(fs.device.sectors), inode) ==>
      status == StaleInode || status == BlockDeviceError
    ensures fs.device.reliable && fs.mounted && MayPublish(fs.geometry, fs.checksum, old(fs.device.sectors), inode) ==>
      status == Ok
  {
    hide InodeAt, PublishOp, InodeExtentStatus, DivideRoundUp;
    updated := inode;
    if !fs.mounted {
      return NotMounted, inode;
    }
    var current: Inode;
    status, current := ReadInode(fs, inode.id);
    if status != Ok {
      return;
    }
    if !SameIncarnation(current, inode) {
      return StaleInode, inode;
    }
    if current.revision == UINT32_MAX {
      return ArithmeticOverflow, inode;
    }
    status := ValidateInodeExtent(fs, inode);
    if status != Ok {
      return;
    }
    var candidate := inode.(revision := current.revision + 1);
    status := StoreInode(fs, candidate);
    if status != Ok {
      return;
    }
    updated := candidate;
  }

  /** The same, on a volume that may or may not know ownership flags. */
  method UpdateFlagged(fs: FileSystem, features: U64, inode: Inode) returns (status: Status, updated: Inode)
    requires fs.Ready() && fs.mounted
    modifies fs.device
    ensures old(fs.device.log) <= fs.device.log
    ensures fs.device.sectors == Apply(old(fs.device.sectors), fs.device.Since(|old(fs.device.log)|))
    ensures !FlagsAllowed(inode.flags, features) ==>
      status == InvalidInodeMetadata && updated == inode && fs.device.log == old(fs.device.log)
    ensures FlagsAllowed(inode.flags, features) ==>
      UpdateSpec(
        fs.geometry, fs.checksum, old(fs.device.sectors), inode, fs.device.Since(|old(fs.device.log)|),
        if status == Ok then Success(updated) else Failure(status))
    ensures status != Ok ==> updated == inode
    ensures fs.device.reliable && FlagsAllowed(inode.flags, features) ==>
      MayPublish(fs.geometry, fs.checksum, old(fs.device.sectors), inode) ==> status == Ok
  {
    hide UpdateSpec, MayPublish, IsStale, Apply;
    ApplyNothing(fs.device.sectors);
    assert fs.device.Since(|fs.device.log|) == [];
    if !FlagsAllowed(inode.flags, features) {
      return InvalidInodeMetadata, inode;
    }
    status, updated := UpdateInode(fs, inode);
  }

  /** An update's writes come to its one publication write. */
  lemma ApplyUpdate(d: Disk, w: Op, ops: seq<Op>)
    requires ops == [w] || ops == [w, Flush]
    ensures Apply(d, ops) == ApplyOp(d, w)
  {
  }

  /** The inode table after a publication: the new inode in its slot, every other one as it was. */
  lemma PublishedTable(g: Geometry, crc: seq<Byte> -> U32, d: Disk, i: Inode, id: U64)
    requires g.Valid(|d|) && 0 < i.id <= g.inodeCount
    requires Acceptable(i, i.id) && i.revision != 0
    ensures InodeAt(g, crc, ApplyOp(d, PublishOp(g, crc, d, i)), id)
         == if id == i.id then Success(i) else InodeAt(g, crc, d, id)
  {
    hide DecodeInode, EncodeInode, Splice, InodeBlock, InodeOffset;
    var b, w := InodeBlock(g, i.id), PublishOp(g, crc, d, i);
    InodeBlockInTable(g, i.id);
    if 0 < id <= g.inodeCount {
      InodeBlockInTable(g, id);
      SlotsApart(g, i.id, id);
      SpliceSlots(d[b], InodeOffset(i.id), EncodeInode(crc, i), InodeOffset(id));
      if id == i.id {
        InodeRoundTrip(crc, i, id);
      }
    }
  }

  /** Slots start at multiples of their size, and two inodes of one sector have different ones. */
  lemma SlotsApart(g: Geometry, a: nat, b: nat)
    requires 0 < a && 0 < b
    ensures InodeOffset(a) % 128 == 0 && InodeOffset(b) % 128 == 0
    ensures a != b && InodeBlock(g, a) == InodeBlock(g, b) ==> InodeOffset(a) != InodeOffset(b)
  {
    assert (a - 1) * 128 == (a - 1) * 128 / 512 * 512 + InodeOffset(a);
    assert (b - 1) * 128 == (b - 1) * 128 / 512 * 512 + InodeOffset(b);
  }

  /** Laid over contents e, the publication write brings its whole inode sector from d. */
  lemma PublishOver(g: Geometry, crc: seq<Byte> -> U32, d: Disk, e: Disk, c: Inode, id: U64)
    requires g.Valid(|d|) && |e| == |d| && 0 < c.id <= g.inodeCount
    ensures
      var w := PublishOp(g, crc, d, c);
      || InodeAt(g, crc, ApplyOp(e, w), id) == InodeAt(g, crc, ApplyOp(d, w), id)
      || InodeAt(g, crc, ApplyOp(e, w), id) == InodeAt(g, crc, e, id)
  {
  }

  lemma SpliceSlots(sector: Sector, at: nat, bytes: seq<Byte>, other: nat)
    requires at % 128 == 0 && other % 128 == 0 && at + 128 <= 512 && other + 128 <= 512 && |bytes| == 128
    ensures Splice(sector, at, bytes)[other..other + 128] == if other == at then bytes else sector[other..other + 128]
  {
  }

  // ----- Reading contents -----

  /** What reading up to capacity bytes at offset through the snapshot returns. */
  ghost function DataAt(g: Geometry, crc: seq<Byte> -> U32, d: Disk, i: Inode, offset: U64, capacity: U64)
    : (r: Result<seq<Byte>>)
    requires g.Valid(|d|)
    ensures r.Failure? ==> r.error != NotFound
  {
    var read := InodeAt(g, crc, d, i.id);
    if read.Failure? then Failure(read.error)
    else
      var current := read.value;
      if !SameIncarnation(current, i) || current.extentStart != i.extentStart
         || current.extentBlocks != i.extentBlocks || current.size != i.size then Failure(StaleInode)
      else if InodeExtentStatus(g, d, current) != Ok then Failure(InodeExtentStatus(g, d, current))
      else if offset >= current.size || capacity == 0 then Success([])
      else
        var wanted := if current.size - offset < capacity then current.size - offset else capacity;
        Success(Flat(d, current.extentStart, offset, wanted))
  }

  /** The bytes from offset on, as many as there are and as fit, each from its place in the extent. */
  ghost predicate IsContents(d: Disk, i: Inode, offset: nat, capacity: nat, output: seq<Byte>) {
    && |output| == (if offset >= i.size then 0 else if i.size - offset < capacity then i.size - offset else capacity)
    && forall k :: 0 <= k < |output| ==>
         var at := offset + k;
         i.extentStart + at / 512 < |d| && output[k] == d[i.extentStart + at / 512][at % 512]
  }

  lemma DataIsContents(
    g: Geometry, crc: seq<Byte> -> U32, d: Disk, i: Inode, offset: U64, capacity: U64, output: seq<Byte>)
    requires g.Valid(|d|) && DataAt(g, crc, d, i, offset, capacity) == Success(output)
    ensures IsContents(d, i, offset, capacity, output)
  {
    hide InodeAt, AllAllocated;
  }

  method ReadInodeData(fs: FileSystem, inode: Inode, offset: U64, capacity: U64)
    returns (status: Status, output: seq<Byte>)
    requires fs.Ready()
    ensures status == Ok ==> IsContents(fs.device.sectors, inode, offset, capacity, output)
    ensures !fs.mounted ==> status == NotMounted
    ensures fs.mounted && status != BlockDeviceError ==>
      DataAt(fs.geometry, fs.checksum, fs.device.sectors, inode, offset, capacity)
      == if status == Ok then Success(output) else Failure(status)
    ensures fs.device.reliable ==> status != BlockDeviceError
  {
    hide InodeAt, DecodeInode, AllAllocated, Flat, IsContents;
    output := [];
    if !fs.mounted {
      return NotMounted, [];
    }
    var current: Inode;
    status, current := ReadInode(fs, inode.id);
    if status != Ok {
      return;
    }
    if !SameIncarnation(current, inode) || current.extentStart != inode.extentStart
       || current.extentBlocks != inode.extentBlocks || current.size != inode.size {
      return StaleInode, [];
    }
    status := ValidateInodeExtent(fs, current);
    if status != Ok {
      return;
    }
    if offset >= current.size || capacity == 0 {
      DataIsContents(fs.geometry, fs.checksum, fs.device.sectors, inode, offset, capacity, []);
      return Ok, [];
    }
    var wanted := if current.size - offset < capacity then current.size - offset else capacity;
    status, output := ReadExtent(fs, current.extentStart, offset, wanted);
    if status == Ok {
      DataIsContents(fs.geometry, fs.checksum, fs.device.sectors, inode, offset, capacity, output);
    }
  }

  /** The sector loop of a read. */
  method ReadExtent(fs: FileSystem, extentStart: U64, offset: U64, wanted: nat)
    returns (status: Status, output: seq<Byte>)
    requires extentStart * 512 + offset + wanted <= |fs.device.sectors| * 512 <= UINT64_MAX * 512
    ensures status == Ok || status == BlockDeviceError
    ensures status == Ok ==> output == Flat(fs.device.sectors, extentStart, offset, wanted)
    ensures fs.device.reliable ==> status == Ok
  {
    output := [];
    while |output| < wanted
      invariant |output| <= wanted
      invariant output == Flat(fs.device.sectors, extentStart, offset, |output|)
      decreases wanted - |output|
    {
      var done := |output|;
      var absolute := offset + done;
      var relativeBlock, inSector := absolute / 512, absolute % 512;
      var diskBlock := AddU64(extentStart, relativeBlock);
      if diskBlock.Failure? {
        return ArithmeticOverflow, output;
      }
      var sector: Sector;
      status, sector := fs.device.Read(diskBlock.value);
      if status != Ok {
        return;
      }
      var remaining, available := wanted - done, 512 - inSector;
      var chunk := if remaining < available then remaining else available;
      FlatExtend(fs.device.sectors, extentStart, offset, done, chunk);
      output := output + sector[inSector..inSector + chunk];
    }
    status := Ok;
  }

  lemma FlatExtend(d: Disk, first: nat, offset: nat, done: nat, chunk: nat)
    requires first * 512 + offset + done + chunk <= |d| * 512
    requires (offset + done) % 512 + chunk <= 512
    requires first + (offset + done) / 512 < |d|
    ensures Flat(d, first, offset, done + chunk)
         == Flat(d, first, offset, done)
          + d[first + (offset + done) / 512][(offset + done) % 512..(offset + done) % 512 + chunk]
  {
  }
}
