/**
 Published versions of a directory: an inode, the bytes of its extent and the
 list they decode to. A version can be present on a device whichever inode the
 table shows, which is what a power cut between two publications chooses.
 */
module KuroVersion {
  import opened Bytes
  import opened KuroDisk
  import opened KuroBitmap
  import opened KuroExtent
  import opened KuroInode
  import opened KuroDirectory
  import opened KuroDirFrame

  datatype Version = Version(inode: Inode, image: seq<Byte>, list: seq<Entry>)

  /** The records of an image in order, each checked against the inode table, or the first failure. */
  function Decoded(g: Geometry, crc: Checksum, d: Disk, image: seq<Byte>): (r: Result<seq<Entry>>)
    requires g.Valid(|d|)
  {
    if |image| < 128 then Success([])
    else
      var n := |image| - 128;
      var before := Decoded(g, crc, d, image[..n]);
      if before.Failure? then before
      else
        var e := CheckedEntry(g, crc, d, image[n..]);
        if e.Failure? then Failure(e.error) else Success(before.value + [e.value])
  }

  /** The version's extent is allocated, and its bytes decode to its list. */
  ghost predicate Carries(g: Geometry, crc: Checksum, d: Disk, v: Version)
    requires g.Valid(|d|)
  {
    && v.inode.kind == DIRECTORY && v.inode.size % 128 == 0
    && DirSound(g, d, v.inode)
    && (v.inode.size == 0 || v.inode.extentStart * 512 + v.inode.size <= |d| * 512)
    && v.image == Flat(d, v.inode.extentStart, 0, v.inode.size)
    && Decoded(g, crc, d, v.image) == Success(v.list)
  }

  // ----- A version and what the directory decodes to -----

  lemma {:induction false} DecodedEntries(g: Geometry, crc: Checksum, d: Disk, dir: Inode, n: U64)
    requires g.Valid(|d|) && Readable(g, crc, d, dir) && n <= dir.size / 128
    requires n == 0 || dir.extentStart * 512 + n * 128 <= |d| * 512
    ensures Decoded(g, crc, d, Flat(d, dir.extentStart, 0, n * 128)) == EntriesUpTo(g, crc, d, dir, n)
    decreases n
  {
    hide InodeAt, CheckedEntry, EntryAt, InodeExtentStatus, DirectoryStatus, Flat;
    if n != 0 {
      var k := n - 1;
      var image := Flat(d, dir.extentStart, 0, n * 128);
      FlatSlice(d, dir.extentStart, k * 128, 128, n * 128);
      FlatSlice(d, dir.extentStart, 0, k * 128, n * 128);
      assert image[..k * 128] == Flat(d, dir.extentStart, 0, k * 128);
      assert image[k * 128..] == Flat(d, dir.extentStart, k * 128, 128);
      DecodedEntries(g, crc, d, dir, k);
      EntryData(g, crc, d, dir, k);
    }
  }

  /** The version whose inode is in the table is what the directory decodes to. */
  lemma CarriedView(g: Geometry, crc: Checksum, d: Disk, v: Version)
    requires g.Valid(|d|) && Carries(g, crc, d, v) && InodeAt(g, crc, d, v.inode.id) == Success(v.inode)
    ensures Sound(g, crc, d, v.inode) && View(g, crc, d, v.inode.id) == Success(v.list)
  {
    hide InodeAt, CheckedEntry, EntryAt, InodeExtentStatus, Flat;
    if v.inode.size != 0 {
      assert v.inode.size / 128 * 128 == v.inode.size;
      DecodedEntries(g, crc, d, v.inode, v.inode.size / 128);
    }
  }

  /** A directory that can be read is a version. */
  lemma ViewCarried(g: Geometry, crc: Checksum, d: Disk, dir: Inode) returns (v: Version)
    requires g.Valid(|d|) && Sound(g, crc, d, dir)
    ensures Carries(g, crc, d, v) && v.inode == dir && Success(v.list) == View(g, crc, d, dir.id)
  {
    hide InodeAt, CheckedEntry, EntryAt, Flat;
    var list := View(g, crc, d, dir.id).value;
    if dir.size == 0 {
      v := Version(dir, [], list);
    } else {
      ReadableDirectory(g, crc, d, dir);
      ExtentInRange(g, d, dir);
      assert dir.size / 128 * 128 == dir.size;
      DecodedEntries(g, crc, d, dir, dir.size / 128);
      v := Version(dir, Flat(d, dir.extentStart, 0, dir.size), list);
    }
  }

  lemma ReadableDirectory(g: Geometry, crc: Checksum, d: Disk, dir: Inode)
    requires g.Valid(|d|) && Sound(g, crc, d, dir) && dir.size != 0
    ensures Readable(g, crc, d, dir)
  {
    hide InodeAt, CheckedEntry, Flat;
    EntriesPrefix(g, crc, d, dir, 0, dir.size / 128);
  }

  // ----- What keeps a version -----

  lemma {:induction false} DecodedTransfer(g: Geometry, crc: Checksum, d: Disk, e: Disk, image: seq<Byte>)
    requires g.Valid(|d|) && |e| == |d| && SameChildren(g, crc, d, e)
    ensures Decoded(g, crc, e, image) == Decoded(g, crc, d, image)
    decreases |image|
  {
    hide InodeAt, CheckedEntry, SameChildren;
    if |image| >= 128 {
      DecodedTransfer(g, crc, d, e, image[..|image| - 128]);
      CheckedEntryTransfer(g, crc, d, e, image[|image| - 128..]);
    }
  }

  lemma CarriedOn(g: Geometry, crc: Checksum, d: Disk, e: Disk, v: Version)
    requires g.Valid(|d|) && Carries(g, crc, d, v)
    requires |e| == |d| && SameChildren(g, crc, d, e) && DirSound(g, e, v.inode) && ImageKept(d, e, v.inode)
    ensures Carries(g, crc, e, v)
  {
    hide SameChildren, DirSound, ImageKept, CheckedEntry, Flat;
    DecodedTransfer(g, crc, d, e, v.image);
    ImageKeptFlat(d, e, v.inode);
  }

  lemma ImageByte(g: Geometry, crc: Checksum, d: Disk, v: Version, b: nat, j: nat)
    requires g.Valid(|d|) && Carries(g, crc, d, v) && b < |d| && DirByte(v.inode, b, j)
    ensures d[b][j] == v.image[(b - v.inode.extentStart) * 512 + j]
  {
    hide DirSound, Decoded;
  }

  /** Bytes of o and bytes of c share a block only if o is an earlier state of the same extent. */
  predicate Apart(o: Inode, c: Inode) {
    || o.size == 0
    || (o.extentStart == c.extentStart && o.extentBlocks == c.extentBlocks && o.size <= c.size)
    || o.extentStart + o.extentBlocks <= c.extentStart
    || c.extentStart + c.extentBlocks <= o.extentStart
  }

  lemma ByteInExtent(g: Geometry, d: Disk, dir: Inode, b: nat, j: nat)
    requires DirSound(g, d, dir) && DirByte(dir, b, j)
    ensures b < dir.extentStart + dir.extentBlocks
  {
  }

  lemma HarmlessKeepsBits(g: Geometry, now: Disk, e: Disk, op: Op, cur: Inode, dir: Inode)
    requires g.Valid(|now|) && |e| == |now| && Harmless(g, now, op, cur)
    requires DirSound(g, now, dir) && DirSound(g, e, dir)
    ensures DirSound(g, ApplyOp(e, op), dir)
  {
    hide SectorBit, DirByte;
    var e' := ApplyOp(e, op);
    if dir.size != 0 {
      forall y: nat | dir.extentStart <= y < dir.extentStart + dir.extentBlocks ensures Allocated(g, e', y) {
        assert Allocated(g, now, y) && Allocated(g, e, y);
        BitmapIndex(g, y);
      }
    }
  }

  lemma HarmlessKeepsBytes(g: Geometry, crc: Checksum, now: Disk, e: Disk, op: Op, cur: Inode, v: Version)
    requires g.Valid(|now|) && |e| == |now| && Harmless(g, now, op, cur)
    requires Carries(g, crc, now, v) && Carries(g, crc, e, v) && Apart(v.inode, cur)
    ensures ImageKept(e, ApplyOp(e, op), v.inode)
  {
    hide DirSound, Decoded, Flat, Carries, Allocated;
    var e' := ApplyOp(e, op);
    forall b: nat, j: nat | b < |e| && DirByte(v.inode, b, j) ensures e'[b][j] == e[b][j] {
      if op.Write? && op.block == b {
        assert DirSound(g, now, v.inode) by { CarriesIsSound(g, crc, now, v); }
        DirBlockAllocated(g, now, v.inode, b, j);
        ByteInExtent(g, now, v.inode, b, j);
        ImageByte(g, crc, now, v, b, j);
        ImageByte(g, crc, e, v, b, j);
      }
    }
  }

  lemma CarriesIsSound(g: Geometry, crc: Checksum, d: Disk, v: Version)
    requires g.Valid(|d|) && Carries(g, crc, d, v)
    ensures DirSound(g, d, v.inode)
  {
  }

  lemma HarmlessKeepsTable(g: Geometry, now: Disk, e: Disk, op: Op, cur: Inode)
    requires g.Valid(|now|) && |e| == |now| && Harmless(g, now, op, cur)
    ensures TableSame(g, e, ApplyOp(e, op))
  {
  }

  // ----- The versions a surviving image can show -----

  /** Both versions are on d, the table shows one of them, and children look as they do now. */
  ghost predicate Fits(g: Geometry, crc: Checksum, now: Disk, d: Disk, o: Version, c: Version)
    requires g.Valid(|now|)
  {
    && |d| == |now| && SameChildren(g, crc, now, d)
    && Carries(g, crc, d, o) && Carries(g, crc, d, c)
    && (|| InodeAt(g, crc, d, c.inode.id) == Success(o.inode)
        || InodeAt(g, crc, d, c.inode.id) == Success(c.inode))
  }

  lemma ChildrenTrans(g: Geometry, crc: Checksum, a: Disk, b: Disk, c: Disk)
    requires g.Valid(|a|) && |b| == |a| && |c| == |a|
    requires SameChildren(g, crc, a, b)
    ensures SameChildren(g, crc, b, c) <==> SameChildren(g, crc, a, c)
  {
    hide InodeAt;
  }

  /** A harmless write laid over any surviving image keeps both versions on it. */
  lemma HarmlessFits(g: Geometry, crc: Checksum, now: Disk, e: Disk, op: Op, o: Version, c: Version)
    requires g.Valid(|now|) && Fits(g, crc, now, now, o, c) && Fits(g, crc, now, e, o, c)
    requires Harmless(g, now, op, c.inode) && Apart(o.inode, c.inode)
    ensures Fits(g, crc, now, ApplyOp(e, op), o, c)
    ensures InodeAt(g, crc, ApplyOp(e, op), c.inode.id) == InodeAt(g, crc, e, c.inode.id)
  {
    hide Harmless, SameChildren, InodeAt, ImageKept, Decoded, Flat, InodeExtentStatus, TableSame;
    var e' := ApplyOp(e, op);
    HarmlessKeepsTable(g, now, e, op, c.inode);
    TableSameInode(g, crc, e, e', c.inode.id);
    TableSameChildren(g, crc, e, e');
    ChildrenTrans(g, crc, now, e, e');
    HarmlessKeepsBits(g, now, e, op, c.inode, o.inode);
    HarmlessKeepsBits(g, now, e, op, c.inode, c.inode);
    HarmlessKeepsBytes(g, crc, now, e, op, c.inode, o);
    HarmlessKeepsBytes(g, crc, now, e, op, c.inode, c);
    CarriedOn(g, crc, e, e', o);
    CarriedOn(g, crc, e, e', c);
  }

  // ----- Inode-table writes -----

  /** An inode-table write does not touch the bytes or the bits of any version. */
  lemma TableWriteCarries(g: Geometry, crc: Checksum, now: Disk, e: Disk, i: Inode, v: Version)
    requires g.Valid(|now|) && |e| == |now| && 0 < i.id <= g.inodeCount && Carries(g, crc, e, v)
    requires SameChildren(g, crc, e, ApplyOp(e, PublishOp(g, crc, now, i)))
    ensures Carries(g, crc, ApplyOp(e, PublishOp(g, crc, now, i)), v)
  {
    hide EncodeInode, Splice, SectorBit, InodeAt, SameChildren, Decoded, Flat;
    var e' := ApplyOp(e, PublishOp(g, crc, now, i));
    InodeBlockInTable(g, i.id);
    if v.inode.size != 0 {
      forall y: nat | v.inode.extentStart <= y < v.inode.extentStart + v.inode.extentBlocks
        ensures Allocated(g, e', y)
      {
        assert Allocated(g, e, y);
        BitmapIndex(g, y);
      }
    }
    forall b: nat, j: nat | b < |e| && DirByte(v.inode, b, j) ensures e'[b][j] == e[b][j] {
      DirBlockAllocated(g, e, v.inode, b, j);
    }
    CarriedOn(g, crc, e, e', v);
  }

  /** Publishing an inode that keeps generation and type changes no child's key, over any surviving image. */
  lemma PublishKeepsChildren(g: Geometry, crc: Checksum, now: Disk, e: Disk, was: Inode, i: Inode)
    requires g.Valid(|now|) && |e| == |now| && SameChildren(g, crc, now, e)
    requires InodeAt(g, crc, now, i.id) == Success(was)
    requires i.generation == was.generation && i.kind == was.kind && Acceptable(i, i.id) && i.revision != 0
    ensures SameChildren(g, crc, now, ApplyOp(e, PublishOp(g, crc, now, i)))
  {
    hide InodeAt, PublishOp;
    var w := PublishOp(g, crc, now, i);
    forall id: U64 ensures ChildKey(InodeAt(g, crc, ApplyOp(e, w), id)) == ChildKey(InodeAt(g, crc, now, id)) {
      PublishOver(g, crc, now, e, i, id);
      PublishedTable(g, crc, now, i, id);
    }
  }

  /** An update of another inode, laid over any surviving image, keeps both versions on it. */
  lemma OtherFits(g: Geometry, crc: Checksum, now: Disk, e: Disk, i: Inode, o: Version, c: Version)
    requires g.Valid(|now|) && Fits(g, crc, now, now, o, c) && Fits(g, crc, now, e, o, c)
    requires MayPublish(g, crc, now, i) && i.id != c.inode.id
    ensures
      var e' := ApplyOp(e, PublishOp(g, crc, now, i.(revision := i.revision + 1)));
      Fits(g, crc, now, e', o, c)
  {
    hide InodeAt, PublishOp, Carries, SameChildren, InodeExtentStatus;
    var i' := i.(revision := i.revision + 1);
    var e' := ApplyOp(e, PublishOp(g, crc, now, i'));
    PublishKeepsChildren(g, crc, now, e, InodeAt(g, crc, now, i.id).value, i');
    ChildrenTrans(g, crc, now, e, e');
    TableWriteCarries(g, crc, now, e, i', o);
    TableWriteCarries(g, crc, now, e, i', c);
    PublishOver(g, crc, now, e, i', c.inode.id);
    PublishedTable(g, crc, now, i', c.inode.id);
  }
}
