/**
 Who lists an inode: the scan of every directory for its only parent, and the way
 from parent to parent that ends at the root, at an inode nobody lists, or nowhere.
 */
module KuroOwner {
  import opened Bytes
  import opened KuroDisk
  import opened KuroBitmap
  import opened KuroAlloc
  import opened KuroInode
  import opened KuroDirectory
  import opened KuroDirFrame
  import opened KuroExtent
  import opened KuroAppendOp

  const ROOT: U64 := 1
  const TOMBSTONE: U32 := 0x8000_0000

  // ----- Slots of the inode table -----

  /** What is stored for a deleted inode. */
  predicate IsTombstone(i: Inode, id: U64) {
    i == Inode(id, 0, TOMBSTONE, 0, 0, 0, 0, i.generation, 0) && i.generation != 0
  }

  /** The slot was never used, or its inode was deleted. */
  predicate FreeSlot(crc: Checksum, bytes: seq<Byte>, id: U64)
    requires |bytes| == 128
  {
    || bytes == Zeros(128)
    || (LoadU32(bytes[124..128]) == crc(bytes[..124]) && IsTombstone(RawInode(bytes), id))
  }

  function DecodeSlot(crc: Checksum, bytes: seq<Byte>, id: U64): (r: Result<Inode>)
    requires |bytes| == 128
    ensures r.Success? <==> DecodeInode(crc, bytes, id).Success?
    ensures r.Success? ==> r == DecodeInode(crc, bytes, id)
  {
    if FreeSlot(crc, bytes, id) then
      FreeIsNoInode(crc, bytes, id);
      Failure(NotFound)
    else DecodeInode(crc, bytes, id)
  }

  lemma FreeIsNoInode(crc: Checksum, bytes: seq<Byte>, id: U64)
    requires |bytes| == 128 && FreeSlot(crc, bytes, id)
    ensures DecodeInode(crc, bytes, id).Failure?
  {
    hide LoadU32, LoadU64, Zeros;
    if bytes == Zeros(128) {
      ZeroKind(bytes);
    }
  }

  lemma ZeroKind(bytes: seq<Byte>)
    requires |bytes| == 128 && bytes == Zeros(128)
    ensures RawInode(bytes).kind == 0
  {
    var b := bytes[8..12];
    assert b == [0, 0, 0, 0] && b[1..] == [0, 0, 0] && b[1..][1..] == [0, 0] && b[1..][1..][1..] == [0];
    assert Load([0]) == 0 && Load([0, 0]) == 0 && Load([0, 0, 0]) == 0;
  }

  /** A stored inode is read back, and a stored tombstone is read as a free slot. */
  lemma SlotRoundTrip(crc: Checksum, i: Inode, id: U64)
    ensures Acceptable(i, id) ==> DecodeSlot(crc, EncodeInode(crc, i), id) == Success(Normalized(i))
    ensures IsTombstone(i, id) ==> DecodeSlot(crc, EncodeInode(crc, i), id) == Failure(NotFound)
  {
    hide LoadU32, LoadU64, StoreU32, Zeros, InodeBody;
    var e := EncodeInode(crc, i);
    InodeRoundTrip(crc, i, id);
    assert e[..124] == InodeBody(i) && e[124..128] == StoreU32(crc(InodeBody(i)));
    U32RoundTrip(crc(InodeBody(i)));
    RawOfEncoded(crc, i);
  }

  /** What the slot of an inode holds: the inode, nothing, or something that cannot be read. */
  function SlotAt(g: Geometry, crc: Checksum, d: Disk, id: U64): (r: Result<Inode>)
    requires g.Valid(|d|)
    ensures r.Success? <==> InodeAt(g, crc, d, id).Success?
    ensures r.Success? ==> r == InodeAt(g, crc, d, id)
    ensures r.Failure? ==> r.error in {NotFound, InvalidArgument, InvalidRootInode}
  {
    if id == 0 || id > g.inodeCount then Failure(InvalidArgument)
    else
      InodeBlockInTable(g, id);
      DecodeSlot(crc, d[InodeBlock(g, id)][InodeOffset(id)..InodeOffset(id) + 128], id)
  }

  lemma TableSameSlot(g: Geometry, crc: Checksum, d: Disk, e: Disk, id: U64)
    requires g.Valid(|d|) && |e| == |d| && TableSame(g, d, e)
    ensures SlotAt(g, crc, e, id) == SlotAt(g, crc, d, id)
  {
    hide DecodeSlot;
  }

  /** A publication leaves every other slot as it was, free ones included. */
  lemma PublishedSlot(g: Geometry, crc: Checksum, d: Disk, i: Inode, id: U64)
    requires g.Valid(|d|) && 0 < i.id <= g.inodeCount && id != i.id
    ensures SlotAt(g, crc, ApplyOp(d, PublishOp(g, crc, d, i)), id) == SlotAt(g, crc, d, id)
  {
    hide DecodeSlot, EncodeInode, Splice, InodeBlock, InodeOffset;
    var b := InodeBlock(g, i.id);
    InodeBlockInTable(g, i.id);
    if 0 < id <= g.inodeCount {
      InodeBlockInTable(g, id);
      SlotsApart(g, i.id, id);
      SpliceSlots(d[b], InodeOffset(i.id), EncodeInode(crc, i), InodeOffset(id));
    }
  }

  method ReadSlot(fs: FileSystem, id: U64) returns (status: Status, inode: Inode)
    requires fs.Ready()
    ensures status == Ok ==> fs.mounted && InodeAt(fs.geometry, fs.checksum, fs.device.sectors, id) == Success(inode)
    ensures status != Ok && status != BlockDeviceError && fs.mounted ==>
      SlotAt(fs.geometry, fs.checksum, fs.device.sectors, id) == Failure(status)
    ensures !fs.mounted ==> status == if id == 0 then InvalidArgument else NotMounted
    ensures fs.device.reliable ==> status != BlockDeviceError
  {
    hide DecodeInode, FreeSlot;
    inode := Inode(0, 0, 0, 0, 0, 0, 0, 0, 0);
    if id == 0 {
      return InvalidArgument, inode;
    }
    if !fs.mounted {
      return NotMounted, inode;
    }
    if id > fs.geometry.inodeCount {
      return InvalidArgument, inode;
    }
    InodeBlockInTable(fs.geometry, id);
    var relativeBlock, offset := (id - 1) * 128 / 512, InodeOffset(id);
    if offset + 128 > 512 || relativeBlock >= fs.geometry.inodeTableBlocks {
      return InvalidGeometry, inode;
    }
    var sector: Sector;
    status, sector := fs.device.Read(fs.geometry.inodeTableStart + relativeBlock);
    if status != Ok {
      return;
    }
    var decoded := DecodeSlot(fs.checksum, sector[offset..offset + 128], id);
    if decoded.Failure? {
      return decoded.error, inode;
    }
    return Ok, decoded.value;
  }

  // ----- Parents -----

  /** The directory p can be read and lists c. */
  ghost predicate Lists(g: Geometry, crc: Checksum, d: Disk, p: U64, c: U64)
    requires g.Valid(|d|)
  {
    View(g, crc, d, p).Success? && HasChild(View(g, crc, d, p).value, c)
  }

  predicate Once(entries: seq<Entry>, c: U64) {
    forall i, k :: 0 <= i < k < |entries| ==> !(entries[i].inodeId == c && entries[k].inodeId == c)
  }

  /** p is the only directory that lists c, and it lists it once. */
  ghost predicate Owner(g: Geometry, crc: Checksum, d: Disk, c: U64, p: U64)
    requires g.Valid(|d|)
  {
    && Lists(g, crc, d, p, c) && Once(View(g, crc, d, p).value, c)
    && forall q: U64 :: Lists(g, crc, d, q, c) ==> q == p
  }

  ghost predicate Unowned(g: Geometry, crc: Checksum, d: Disk, c: U64)
    requires g.Valid(|d|)
  {
    forall q: U64 :: !Lists(g, crc, d, q, c)
  }

  /** The slot is free or holds an inode, and a directory can be read to its end. */
  ghost predicate SlotReadable(g: Geometry, crc: Checksum, d: Disk, id: U64)
    requires g.Valid(|d|)
  {
    var slot := SlotAt(g, crc, d, id);
    || slot == Failure(NotFound)
    || (slot.Success? && (slot.value.kind == DIRECTORY ==> View(g, crc, d, id).Success?))
  }

  ghost predicate AllReadable(g: Geometry, crc: Checksum, d: Disk)
    requires g.Valid(|d|)
  {
    forall id: U64 :: 0 < id <= g.inodeCount ==> SlotReadable(g, crc, d, id)
  }

  /** Only a live directory lists anything. */
  lemma ListerIsLive(g: Geometry, crc: Checksum, d: Disk, p: U64, c: U64)
    requires g.Valid(|d|) && Lists(g, crc, d, p, c)
    ensures 0 < p <= g.inodeCount && InodeAt(g, crc, d, p).Success? && InodeAt(g, crc, d, p).value.kind == DIRECTORY
  {
    hide EntriesUpTo;
  }

  lemma NotListed(g: Geometry, crc: Checksum, d: Disk, p: U64, c: U64)
    requires g.Valid(|d|)
    requires !(InodeAt(g, crc, d, p).Success? && InodeAt(g, crc, d, p).value.kind == DIRECTORY)
    ensures !Lists(g, crc, d, p, c)
  {
    hide EntriesUpTo, InodeAt;
  }

  lemma EntryInView(g: Geometry, crc: Checksum, d: Disk, dir: Inode, index: U64)
    requires g.Valid(|d|) && DirectoryStatus(g, crc, d, dir) == Ok && index < dir.size / 128
    ensures
      var view := View(g, crc, d, dir.id);
      view.Success? ==>
        && |view.value| == dir.size / 128 && EntryAt(g, crc, d, dir, index) == Success(view.value[index])
        && EntriesUpTo(g, crc, d, dir, index) == Success(view.value[..index])
  {
    hide InodeAt, EntryAt;
    if View(g, crc, d, dir.id).Success? {
      EntriesPrefix(g, crc, d, dir, index, dir.size / 128);
    }
  }

  /** Reads a whole directory for the child; more than one reference in all is corruption. */
  method CountChild(fs: FileSystem, dir: Inode, child: U64, seen: bool) returns (status: Status, found: bool)
    requires fs.Ready() && fs.mounted && InodeAt(fs.geometry, fs.checksum, fs.device.sectors, dir.id) == Success(dir)
    requires dir.kind == DIRECTORY
    ensures status == Ok ==>
      && View(fs.geometry, fs.checksum, fs.device.sectors, dir.id).Success?
      && var list := View(fs.geometry, fs.checksum, fs.device.sectors, dir.id).value;
      (found <==> HasChild(list, child)) && (found ==> !seen && Once(list, child))
    ensures status != NotFound && status != WouldCreateCycle
    ensures fs.device.reliable && View(fs.geometry, fs.checksum, fs.device.sectors, dir.id).Success? ==>
      var list := View(fs.geometry, fs.checksum, fs.device.sectors, dir.id).value;
      status == if HasChild(list, child) && (seen || !Once(list, child)) then CorruptDirectory else Ok
  {
    hide InodeAt, EntryAt;
    found, status := false, Ok;
    if dir.size % 128 != 0 {
      return CorruptDirectory, false;
    }
    var index: U64, count: U64 := 0, dir.size / 128;
    while index < count
      invariant 0 <= index <= count && status == Ok
      invariant EntriesUpTo(fs.geometry, fs.checksum, fs.device.sectors, dir, index).Success?
      invariant
        var list := EntriesUpTo(fs.geometry, fs.checksum, fs.device.sectors, dir, index).value;
        (found <==> HasChild(list, child)) && (found ==> !seen && Once(list, child))
    {
      var entry: Entry;
      EntryInView(fs.geometry, fs.checksum, fs.device.sectors, dir, index);
      status, entry := DirectoryEntryAt(fs, dir, index);
      if status != Ok {
        EntryErrors(fs.geometry, fs.checksum, fs.device.sectors, dir, index);
        return;
      }
      ghost var list := EntriesUpTo(fs.geometry, fs.checksum, fs.device.sectors, dir, index).value;
      ChildMore(list, entry, child);
      if entry.inodeId == child {
        if seen || found {
          TwiceInView(fs.geometry, fs.checksum, fs.device.sectors, dir, index, child);
          return CorruptDirectory, found;
        }
        found := true;
      }
      index := index + 1;
    }
  }

  lemma ChildMore(list: seq<Entry>, e: Entry, child: U64)
    ensures HasChild(list + [e], child) <==> HasChild(list, child) || e.inodeId == child
    ensures Once(list, child) && !HasChild(list, child) ==> Once(list + [e], child)
    ensures Once(list, child) && e.inodeId != child ==> Once(list + [e], child)
    ensures !HasChild(list, child) ==> Once(list, child)
    ensures HasChild(list, child) && e.inodeId == child ==> !Once(list + [e], child)
  {
    var more := list + [e];
    if HasChild(list, child) {
      var i :| 0 <= i < |list| && list[i].inodeId == child;
      assert more[i].inodeId == child && more[|list|] == e;
    }
    if e.inodeId == child {
      assert more[|list|].inodeId == child;
    }
  }

  lemma TwiceInView(g: Geometry, crc: Checksum, d: Disk, dir: Inode, index: U64, child: U64)
    requires g.Valid(|d|) && DirectoryStatus(g, crc, d, dir) == Ok && index < dir.size / 128
    requires EntryAt(g, crc, d, dir, index).Success? && EntryAt(g, crc, d, dir, index).value.inodeId == child
    requires EntriesUpTo(g, crc, d, dir, index).Success?
    ensures
      var view := View(g, crc, d, dir.id);
      view.Success? ==>
        && HasChild(view.value, child)
        && (HasChild(EntriesUpTo(g, crc, d, dir, index).value, child) ==> !Once(view.value, child))
  {
    hide InodeAt, EntryAt;
    EntryInView(g, crc, d, dir, index);
  }

  /** Scans every directory of the volume for the one that lists the child. */
  method FindUniqueParent(fs: FileSystem, child: U64) returns (status: Status, parent: U64)
    requires fs.Ready() && fs.mounted
    ensures child == ROOT ==> status == InvalidArgument
    ensures status == Ok ==>
      && AllReadable(fs.geometry, fs.checksum, fs.device.sectors)
      && Owner(fs.geometry, fs.checksum, fs.device.sectors, child, parent)
    ensures status == NotFound ==>
      && AllReadable(fs.geometry, fs.checksum, fs.device.sectors)
      && Unowned(fs.geometry, fs.checksum, fs.device.sectors, child)
    ensures fs.device.reliable && child != ROOT && status != Ok && status != NotFound ==>
      Ambiguous(fs.geometry, fs.checksum, fs.device.sectors, child)
    ensures status != WouldCreateCycle
  {
    hide InodeAt, View, Once, HasChild, SlotAt, Ambiguous, AllReadable, Owner, Unowned;
    parent, status := 0, Ok;
    if child == ROOT {
      return InvalidArgument, 0;
    }
    var id: U64 := ROOT;
    while id <= fs.geometry.inodeCount
      invariant 0 < id <= fs.geometry.inodeCount + 1
      invariant Scanned(fs.geometry, fs.checksum, fs.device.sectors, child, id, parent)
      decreases fs.geometry.inodeCount + 1 - id
    {
      var candidate: Inode;
      status, candidate := ReadSlot(fs, id);
      if status == Ok && candidate.kind == DIRECTORY {
        var found: bool;
        SnapshotId(fs.geometry, fs.checksum, fs.device.sectors, id);
        status, found := CountChild(fs, candidate, child, parent != 0);
        if status != Ok {
          ScanStops(fs.geometry, fs.checksum, fs.device.sectors, child, id, parent);
          return status, 0;
        }
        if found {
          parent := id;
        }
      } else if status == Ok || status == NotFound {
        NotListed(fs.geometry, fs.checksum, fs.device.sectors, id, child);
      } else {
        BadSlot(fs.geometry, fs.checksum, fs.device.sectors, child, id);
        return status, 0;
      }
      id := id + 1;
    }
    ScanEnds(fs.geometry, fs.checksum, fs.device.sectors, child, parent);
    if parent == 0 {
      return NotFound, 0;
    }
    status := Ok;
  }

  lemma SnapshotId(g: Geometry, crc: Checksum, d: Disk, id: U64)
    requires g.Valid(|d|) && InodeAt(g, crc, d, id).Success?
    ensures InodeAt(g, crc, d, id).value.id == id
  {
  }

  /** The directories below upTo can be read, and parent is the only one of them that lists the child, or zero. */
  ghost predicate Scanned(g: Geometry, crc: Checksum, d: Disk, child: U64, upTo: U64, parent: U64)
    requires g.Valid(|d|)
  {
    && (forall id: U64 :: 0 < id < upTo ==> SlotReadable(g, crc, d, id))
    && (forall q: U64 :: 0 < q < upTo && Lists(g, crc, d, q, child) ==> q == parent)
    && (parent != 0 ==>
          0 < parent < upTo && Lists(g, crc, d, parent, child) && Once(View(g, crc, d, parent).value, child))
  }

  /** Some slot or directory cannot be read, or the child is listed more than once. */
  ghost predicate Ambiguous(g: Geometry, crc: Checksum, d: Disk, child: U64)
    requires g.Valid(|d|)
  {
    AllReadable(g, crc, d) ==> !Unowned(g, crc, d, child) && forall p: U64 :: !Owner(g, crc, d, child, p)
  }

  lemma BadSlot(g: Geometry, crc: Checksum, d: Disk, child: U64, id: U64)
    requires g.Valid(|d|) && 0 < id <= g.inodeCount
    ensures SlotAt(g, crc, d, id).Failure? && SlotAt(g, crc, d, id).error != NotFound ==> Ambiguous(g, crc, d, child)
  {
    hide InodeAt, View, Once, HasChild, SlotAt;
    if SlotAt(g, crc, d, id).Failure? && SlotAt(g, crc, d, id).error != NotFound {
      assert !SlotReadable(g, crc, d, id);
    }
  }

  lemma ScanStops(g: Geometry, crc: Checksum, d: Disk, child: U64, id: U64, parent: U64)
    requires g.Valid(|d|) && Scanned(g, crc, d, child, id, parent) && 0 < id <= g.inodeCount
    requires InodeAt(g, crc, d, id).Success? && InodeAt(g, crc, d, id).value.kind == DIRECTORY
    ensures
      var view := View(g, crc, d, id);
      view.Failure? || (HasChild(view.value, child) && (parent != 0 || !Once(view.value, child))) ==>
      Ambiguous(g, crc, d, child)
  {
    hide InodeAt, View, Once, HasChild, SlotAt;
    var view := View(g, crc, d, id);
    if view.Failure? {
      assert !SlotReadable(g, crc, d, id);
    } else if HasChild(view.value, child) {
      assert Lists(g, crc, d, id, child);
    }
  }

  lemma ScanEnds(g: Geometry, crc: Checksum, d: Disk, child: U64, parent: U64)
    requires g.Valid(|d|) && Scanned(g, crc, d, child, g.inodeCount + 1, parent)
    ensures AllReadable(g, crc, d)
    ensures if parent == 0 then Unowned(g, crc, d, child) else Owner(g, crc, d, child, parent)
  {
    hide InodeAt, View, Once, HasChild, SlotAt;
    forall q: U64 | Lists(g, crc, d, q, child) ensures 0 < q == parent {
      ListerIsLive(g, crc, d, q, child);
    }
  }
}
