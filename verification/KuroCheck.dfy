/** What mounting checks about every inode before it hands the volume out. */
module KuroCheck {
  import opened Bytes
  import opened KuroDisk
  import opened KuroBitmap
  import opened KuroAlloc
  import opened KuroInode
  import opened KuroDirectory
  import opened KuroAppendOp
  import opened KuroOwner
  import opened KuroTree

  // ----- Single inodes -----

  predicate ExtentsOverlap(a: Inode, b: Inode) {
    if a.extentBlocks == 0 || b.extentBlocks == 0 then false
    else if a.extentStart + a.extentBlocks > UINT64_MAX || b.extentStart + b.extentBlocks > UINT64_MAX then true
    else a.extentStart < b.extentStart + b.extentBlocks && b.extentStart < a.extentStart + a.extentBlocks
  }

  /** The inode owns its extent, has one link and known flags. */
  ghost predicate Validated(g: Geometry, d: Disk, i: Inode) {
    InodeExtentStatus(g, d, i) == Ok && i.linkCount == 1 && ValidFlags(i.flags)
  }

  /** A directory lists neither the root nor itself, and no name or child twice. */
  predicate GoodList(entries: seq<Entry>, id: U64) {
    && (forall i :: 0 <= i < |entries| ==> entries[i].inodeId != ROOT && entries[i].inodeId != id)
    && (forall i, k :: 0 <= i < k < |entries| ==>
          entries[i].inodeId != entries[k].inodeId && entries[i].name != entries[k].name)
  }

  ghost predicate GoodDirectory(g: Geometry, crc: Checksum, d: Disk, id: U64)
    requires g.Valid(|d|)
  {
    View(g, crc, d, id).Success? && GoodList(View(g, crc, d, id).value, id)
  }

  /** No inode behind the slot shares a block with i. */
  ghost predicate Unshared(g: Geometry, crc: Checksum, d: Disk, i: Inode, id: U64)
    requires g.Valid(|d|)
  {
    forall other: U64 :: id < other && InodeAt(g, crc, d, other).Success? ==>
      !ExtentsOverlap(i, InodeAt(g, crc, d, other).value)
  }

  ghost predicate GoodInode(g: Geometry, crc: Checksum, d: Disk, id: U64, i: Inode)
    requires g.Valid(|d|)
  {
    && Validated(g, d, i) && (id == ROOT ==> i.flags == 0)
    && (i.kind == DIRECTORY ==> GoodDirectory(g, crc, d, id))
    && Unshared(g, crc, d, i, id)
  }

  ghost predicate GoodSlot(g: Geometry, crc: Checksum, d: Disk, id: U64)
    requires g.Valid(|d|)
  {
    var slot := SlotAt(g, crc, d, id);
    slot == Failure(NotFound) || (slot.Success? && GoodInode(g, crc, d, id, slot.value))
  }

  // ----- Parents -----

  /** Nobody lists the inode, or one directory does, once. */
  ghost predicate OneParent(g: Geometry, crc: Checksum, d: Disk, id: U64)
    requires g.Valid(|d|)
  {
    Unowned(g, crc, d, id) || exists p: U64 :: Owner(g, crc, d, id, p)
  }

  ghost predicate GoodParent(g: Geometry, crc: Checksum, d: Disk, id: U64)
    requires g.Valid(|d|)
  {
    id != ROOT && InodeAt(g, crc, d, id).Success? ==>
      && OneParent(g, crc, d, id)
      && (InodeAt(g, crc, d, id).value.kind == DIRECTORY ==> HasTop(g, crc, d, id))
  }

  /**
   Everything mounting checks: readable slots with sound inodes apart from each other, a root directory, at
   most one parent for every inode, and no directory that is its own ancestor.
   */
  ghost predicate Healthy(g: Geometry, crc: Checksum, d: Disk)
    requires g.Valid(|d|)
  {
    && (forall id: U64 :: 0 < id <= g.inodeCount ==> GoodSlot(g, crc, d, id))
    && (forall id: U64 :: 0 < id <= g.inodeCount ==> GoodParent(g, crc, d, id))
    && InodeAt(g, crc, d, ROOT).Success? && InodeAt(g, crc, d, ROOT).value.kind == DIRECTORY
  }

  lemma GoodIsReadable(g: Geometry, crc: Checksum, d: Disk)
    requires g.Valid(|d|) && forall id: U64 :: 0 < id <= g.inodeCount ==> GoodSlot(g, crc, d, id)
    ensures AllReadable(g, crc, d)
  {
    hide InodeAt, View, SlotAt, Validated, Unshared, GoodList;
    forall id: U64 | 0 < id <= g.inodeCount ensures SlotReadable(g, crc, d, id) {
      assert GoodSlot(g, crc, d, id);
    }
  }

  lemma ListsNoRoot(entries: seq<Entry>, id: U64, c: U64)
    requires GoodList(entries, id) && HasChild(entries, c)
    ensures c != ROOT && c != id && Once(entries, c)
  {
  }

  /** On a healthy volume two directories that list the same live inode are one. */
  lemma ListedOnce(g: Geometry, crc: Checksum, d: Disk, p: U64, q: U64, c: U64)
    requires g.Valid(|d|) && Healthy(g, crc, d) && Lists(g, crc, d, p, c) && Lists(g, crc, d, q, c)
    requires InodeAt(g, crc, d, c).Success?
    ensures p == q && c != ROOT && c != p && Owner(g, crc, d, c, p)
  {
    hide InodeAt, View, HasChild, SlotAt, Once, Validated, Unshared, GoodList, HasTop;
    ListerIsLive(g, crc, d, p, c);
    StoredIsAcceptable(g, crc, d, c);
    assert GoodSlot(g, crc, d, p) && GoodParent(g, crc, d, c);
    ListsNoRoot(View(g, crc, d, p).value, p, c);
  }

  // ----- Ownership -----

  /** Flags the volume can have, and at most one parent. */
  ghost predicate OwnedSlot(g: Geometry, crc: Checksum, d: Disk, id: U64)
    requires g.Valid(|d|)
  {
    var slot := SlotAt(g, crc, d, id);
    || slot == Failure(NotFound)
    || (slot.Success? && ValidFlags(slot.value.flags) && (id == ROOT ==> slot.value.flags == 0)
        && (id != ROOT ==> OneParent(g, crc, d, id)))
  }

  lemma HealthyIsOwned(g: Geometry, crc: Checksum, d: Disk, id: U64)
    requires g.Valid(|d|) && Healthy(g, crc, d) && 0 < id <= g.inodeCount
    ensures OwnedSlot(g, crc, d, id)
  {
    hide InodeAt, SlotAt, GoodDirectory, Unshared, OneParent, HasTop, InodeExtentStatus;
    assert GoodSlot(g, crc, d, id) && GoodParent(g, crc, d, id);
  }

  /** The checks mounting makes while it looks whether inodes are attached. */
  method CheckOwnership(fs: FileSystem) returns (status: Status)
    requires fs.Ready() && fs.mounted
    ensures status == Ok ==> forall id: U64 :: 0 < id <= fs.geometry.inodeCount ==>
      OwnedSlot(fs.geometry, fs.checksum, fs.device.sectors, id)
    ensures fs.device.reliable && Healthy(fs.geometry, fs.checksum, fs.device.sectors) ==> status == Ok
  {
    hide InodeAt, SlotAt, Owner, Unowned, AllReadable, Healthy, Ambiguous;
    if Healthy(fs.geometry, fs.checksum, fs.device.sectors) {
      HealthyIsReadable(fs.geometry, fs.checksum, fs.device.sectors);
    }
    var id: U64 := ROOT;
    while id <= fs.geometry.inodeCount
      invariant 0 < id <= fs.geometry.inodeCount + 1
      invariant forall k: U64 :: 0 < k < id ==> OwnedSlot(fs.geometry, fs.checksum, fs.device.sectors, k)
      decreases fs.geometry.inodeCount + 1 - id
    {
      var inode: Inode;
      if Healthy(fs.geometry, fs.checksum, fs.device.sectors) {
        HealthyIsOwned(fs.geometry, fs.checksum, fs.device.sectors, id);
      }
      status, inode := ReadSlot(fs, id);
      if status != NotFound {
        if status != Ok {
          return;
        }
        if !ValidFlags(inode.flags) || (id == ROOT && inode.flags != 0) {
          return InvalidInodeMetadata;
        }
        if id != ROOT {
          var parent: U64;
          status, parent := FindUniqueParent(fs, id);
          if status != Ok && status != NotFound {
            Contested(fs.geometry, fs.checksum, fs.device.sectors, id);
            return;
          }
        }
      }
      id := id + 1;
    }
    status := Ok;
  }

  lemma HealthyIsReadable(g: Geometry, crc: Checksum, d: Disk)
    requires g.Valid(|d|) && Healthy(g, crc, d)
    ensures AllReadable(g, crc, d)
  {
    hide GoodSlot;
    GoodIsReadable(g, crc, d);
  }

  lemma Contested(g: Geometry, crc: Checksum, d: Disk, id: U64)
    requires g.Valid(|d|)
    ensures Ambiguous(g, crc, d, id) && AllReadable(g, crc, d) ==> !OneParent(g, crc, d, id)
  {
    hide Owner, Unowned, AllReadable;
  }

  // ----- Consistency -----

  method CheckEntry(fs: FileSystem, dir: Inode, index: U64) returns (status: Status)
    requires fs.Ready() && fs.mounted && DirectoryStatus(fs.geometry, fs.checksum, fs.device.sectors, dir) == Ok
    requires index < dir.size / 128
    requires EntriesUpTo(fs.geometry, fs.checksum, fs.device.sectors, dir, index).Success?
    requires GoodList(EntriesUpTo(fs.geometry, fs.checksum, fs.device.sectors, dir, index).value, dir.id)
    ensures status == Ok ==>
      && EntriesUpTo(fs.geometry, fs.checksum, fs.device.sectors, dir, index + 1).Success?
      && GoodList(EntriesUpTo(fs.geometry, fs.checksum, fs.device.sectors, dir, index + 1).value, dir.id)
    ensures fs.device.reliable && GoodDirectory(fs.geometry, fs.checksum, fs.device.sectors, dir.id) ==> status == Ok
  {
    hide InodeAt, EntryAt;
    ghost var g, crc, d := fs.geometry, fs.checksum, fs.device.sectors;
    ghost var list := EntriesUpTo(g, crc, d, dir, index).value;
    EntryInView(g, crc, d, dir, index);
    var entry: Entry;
    status, entry := DirectoryEntryAt(fs, dir, index);
    if status != Ok {
      return;
    }
    if entry.inodeId == ROOT || entry.inodeId == dir.id {
      return CorruptDirectory;
    }
    var previous: U64 := 0;
    while previous < index
      invariant 0 <= previous <= index && status == Ok
      invariant forall k :: 0 <= k < previous ==> list[k].inodeId != entry.inodeId && list[k].name != entry.name
    {
      var earlier: Entry;
      EntriesPrefix(g, crc, d, dir, previous, index);
      status, earlier := DirectoryEntryAt(fs, dir, previous);
      if status != Ok {
        return;
      }
      if earlier.inodeId == entry.inodeId || earlier.name == entry.name {
        return CorruptDirectory;
      }
      previous := previous + 1;
    }
  }

  method CheckEntries(fs: FileSystem, dir: Inode) returns (status: Status)
    requires fs.Ready() && fs.mounted && dir.kind == DIRECTORY
    requires InodeAt(fs.geometry, fs.checksum, fs.device.sectors, dir.id) == Success(dir)
    ensures status == Ok ==> GoodDirectory(fs.geometry, fs.checksum, fs.device.sectors, dir.id)
    ensures fs.device.reliable && GoodDirectory(fs.geometry, fs.checksum, fs.device.sectors, dir.id) ==> status == Ok
  {
    hide InodeAt, EntryAt, GoodList;
    if dir.size % 128 != 0 {
      return CorruptDirectory;
    }
    var index: U64, count: U64 := 0, dir.size / 128;
    status := Ok;
    NothingListed(dir.id);
    while index < count
      invariant 0 <= index <= count && status == Ok
      invariant EntriesUpTo(fs.geometry, fs.checksum, fs.device.sectors, dir, index).Success?
      invariant GoodList(EntriesUpTo(fs.geometry, fs.checksum, fs.device.sectors, dir, index).value, dir.id)
    {
      status := CheckEntry(fs, dir, index);
      if status != Ok {
        return;
      }
      index := index + 1;
    }
  }

  lemma NothingListed(id: U64)
    ensures GoodList([], id)
  {
  }

  method CheckUnshared(fs: FileSystem, inode: Inode, id: U64) returns (status: Status)
    requires fs.Ready() && fs.mounted && 0 < id <= fs.geometry.inodeCount
    ensures status == Ok ==> Unshared(fs.geometry, fs.checksum, fs.device.sectors, inode, id)
    ensures fs.device.reliable && AllReadable(fs.geometry, fs.checksum, fs.device.sectors) ==>
      Unshared(fs.geometry, fs.checksum, fs.device.sectors, inode, id) ==> status == Ok
  {
    hide InodeAt, SlotAt, View, ExtentsOverlap;
    ghost var g, crc, d := fs.geometry, fs.checksum, fs.device.sectors;
    status := Ok;
    if inode.extentBlocks == 0 {
      NoExtent(g, crc, d, inode, id);
      return;
    }
    var other: U64 := id + 1;
    while other <= fs.geometry.inodeCount
      invariant id < other <= fs.geometry.inodeCount + 1
      invariant forall k: U64 :: id < k < other && InodeAt(g, crc, d, k).Success? ==>
        !ExtentsOverlap(inode, InodeAt(g, crc, d, k).value)
      decreases fs.geometry.inodeCount + 1 - other
    {
      var next: Inode;
      status, next := ReadSlot(fs, other);
      if status != NotFound {
        if status != Ok {
          if fs.device.reliable {
            assert !SlotReadable(g, crc, d, other);
          }
          return;
        }
        if ExtentsOverlap(inode, next) {
          return OverlappingExtents;
        }
      }
      other := other + 1;
    }
    status := Ok;
    forall k: U64 | id < k && InodeAt(g, crc, d, k).Success?
      ensures !ExtentsOverlap(inode, InodeAt(g, crc, d, k).value)
    {
      StoredIsAcceptable(g, crc, d, k);
    }
  }

  lemma NoExtent(g: Geometry, crc: Checksum, d: Disk, i: Inode, id: U64)
    requires g.Valid(|d|) && i.extentBlocks == 0
    ensures Unshared(g, crc, d, i, id)
  {
    hide InodeAt;
  }

  method CheckInode(fs: FileSystem, inode: Inode, id: U64) returns (status: Status)
    requires fs.Ready() && fs.mounted && 0 < id <= fs.geometry.inodeCount && inode.id == id
    requires InodeAt(fs.geometry, fs.checksum, fs.device.sectors, id) == Success(inode)
    ensures status == Ok ==> GoodInode(fs.geometry, fs.checksum, fs.device.sectors, id, inode)
    ensures fs.device.reliable && AllReadable(fs.geometry, fs.checksum, fs.device.sectors) ==>
      GoodInode(fs.geometry, fs.checksum, fs.device.sectors, id, inode) ==> status == Ok
  {
    hide InodeAt, InodeExtentStatus, GoodDirectory, Unshared, AllReadable;
    status := ValidateInodeExtent(fs, inode);
    if status != Ok {
      return;
    }
    if !ValidFlags(inode.flags) || inode.linkCount != 1 || (inode.id == ROOT && inode.flags != 0) {
      return InvalidInodeMetadata;
    }
    if inode.kind == DIRECTORY {
      status := CheckEntries(fs, inode);
      if status != Ok {
        return;
      }
    }
    status := CheckUnshared(fs, inode, id);
  }

  /** The first pass of the consistency check: every inode by itself, and against all later ones. */
  method CheckInodes(fs: FileSystem) returns (status: Status)
    requires fs.Ready() && fs.mounted
    ensures status == Ok ==> forall id: U64 :: 0 < id <= fs.geometry.inodeCount ==>
      GoodSlot(fs.geometry, fs.checksum, fs.device.sectors, id)
    ensures fs.device.reliable && Healthy(fs.geometry, fs.checksum, fs.device.sectors) ==> status == Ok
  {
    hide InodeAt, SlotAt, GoodInode, GoodParent, AllReadable;
    if Healthy(fs.geometry, fs.checksum, fs.device.sectors) {
      HealthyIsReadable(fs.geometry, fs.checksum, fs.device.sectors);
    }
    var id: U64 := ROOT;
    while id <= fs.geometry.inodeCount
      invariant 0 < id <= fs.geometry.inodeCount + 1
      invariant forall k: U64 :: 0 < k < id ==> GoodSlot(fs.geometry, fs.checksum, fs.device.sectors, k)
      decreases fs.geometry.inodeCount + 1 - id
    {
      var inode: Inode;
      assert Healthy(fs.geometry, fs.checksum, fs.device.sectors) ==>
          GoodSlot(fs.geometry, fs.checksum, fs.device.sectors, id);
      status, inode := ReadSlot(fs, id);
      if status != NotFound {
        if status != Ok {
          return;
        }
        StoredIsAcceptable(fs.geometry, fs.checksum, fs.device.sectors, id);
        status := CheckInode(fs, inode, id);
        if status != Ok {
          return;
        }
      }
      id := id + 1;
    }
    status := Ok;
  }

  /** The second pass: one parent at most, and an end to the way up. */
  method CheckParents(fs: FileSystem) returns (status: Status)
    requires fs.Ready() && fs.mounted
    ensures status == Ok ==> forall id: U64 :: 0 < id <= fs.geometry.inodeCount ==>
      GoodParent(fs.geometry, fs.checksum, fs.device.sectors, id)
    ensures fs.device.reliable && Healthy(fs.geometry, fs.checksum, fs.device.sectors) ==> status == Ok
  {
    hide InodeAt, SlotAt, GoodInode, OneParent, HasTop, AllReadable, Reaches, Owner, Unowned, Ambiguous, GoodSlot;
    if Healthy(fs.geometry, fs.checksum, fs.device.sectors) {
      HealthyIsReadable(fs.geometry, fs.checksum, fs.device.sectors);
    }
    var id: U64 := ROOT + 1;
    while id <= fs.geometry.inodeCount
      invariant 0 < id && (id <= fs.geometry.inodeCount + 1 || id == 2)
      invariant forall k: U64 :: 0 < k < id ==> GoodParent(fs.geometry, fs.checksum, fs.device.sectors, k)
      decreases fs.geometry.inodeCount + 1 - id
    {
      var inode: Inode;
      if Healthy(fs.geometry, fs.checksum, fs.device.sectors) {
        HealthyIsOwned(fs.geometry, fs.checksum, fs.device.sectors, id);
      }
      assert Healthy(fs.geometry, fs.checksum, fs.device.sectors) ==>
          GoodParent(fs.geometry, fs.checksum, fs.device.sectors, id);
      status, inode := ReadSlot(fs, id);
      if status != NotFound {
        if status != Ok {
          return;
        }
        StoredIsAcceptable(fs.geometry, fs.checksum, fs.device.sectors, id);
        status := CheckParent(fs, inode);
        if status != Ok {
          return;
        }
      }
      id := id + 1;
    }
    status := Ok;
  }

  method CheckParent(fs: FileSystem, inode: Inode) returns (status: Status)
    requires fs.Ready() && fs.mounted && inode.id != ROOT
    requires InodeAt(fs.geometry, fs.checksum, fs.device.sectors, inode.id) == Success(inode)
    ensures status == Ok ==> GoodParent(fs.geometry, fs.checksum, fs.device.sectors, inode.id)
    ensures fs.device.reliable && AllReadable(fs.geometry, fs.checksum, fs.device.sectors) ==>
      GoodParent(fs.geometry, fs.checksum, fs.device.sectors, inode.id) ==> status == Ok
  {
    hide InodeAt, HasTop, AllReadable, Reaches, Owner, Unowned, Ambiguous;
    StoredIsAcceptable(fs.geometry, fs.checksum, fs.device.sectors, inode.id);
    var parent: U64;
    status, parent := FindUniqueParent(fs, inode.id);
    if status != Ok && status != NotFound {
      Contested(fs.geometry, fs.checksum, fs.device.sectors, inode.id);
      return;
    }
    status := Ok;
    if inode.kind == DIRECTORY {
      var reaches: bool;
      status, reaches := InodeReachesRoot(fs, inode.id);
      if status == Ok {
        ReachesTop(fs.geometry, fs.checksum, fs.device.sectors, inode.id, reaches);
      }
    }
  }

  lemma ReachesTop(g: Geometry, crc: Checksum, d: Disk, x: U64, root: bool)
    requires g.Valid(|d|) && Reaches(g, crc, d, x, root)
    ensures HasTop(g, crc, d, x)
  {
    hide TopChain;
  }

  /** All checks of a mount, in the order it makes them. */
  method CheckVolume(fs: FileSystem) returns (status: Status)
    requires fs.Ready() && fs.mounted
    ensures status == Ok ==> Healthy(fs.geometry, fs.checksum, fs.device.sectors)
    ensures fs.device.reliable && Healthy(fs.geometry, fs.checksum, fs.device.sectors) ==> status == Ok
  {
    hide InodeAt, GoodSlot, GoodParent, OwnedSlot;
    status := CheckOwnership(fs);
    if status != Ok {
      return;
    }
    var root: Inode;
    status, root := ReadSlot(fs, ROOT);
    if status != Ok || root.kind != DIRECTORY {
      return InvalidRootInode;
    }
    status := CheckInodes(fs);
    if status != Ok {
      return;
    }
    status := CheckParents(fs);
  }
}
