/** The append operation itself and its crash atomicity. */
module KuroAppendOp {
  import opened Bytes
  import opened KuroDisk
  import opened KuroBitmap
  import opened KuroAlloc
  import opened KuroExtent
  import opened KuroInode
  import opened KuroDirectory
  import opened KuroDirFrame
  import opened KuroAppend

  // ----- Publication of a prepared image -----

  function Candidate(dir: Inode, first: U64, blocks: U64): Inode
    requires dir.size + 128 <= UINT64_MAX
  {
    dir.(size := dir.size + 128, extentStart := first, extentBlocks := blocks)
  }

  /** A publication changes one inode-table sector and nothing else. */
  lemma PublishFrame(g: Geometry, crc: Checksum, d: Disk, i: Inode, first: U64, blocks: U64)
    requires g.Valid(|d|) && 0 < i.id <= g.inodeCount
    requires ExtentStatus(g, d, first, blocks) == Ok && blocks > 0
    ensures
      var d' := ApplyOp(d, PublishOp(g, crc, d, i));
      && |d'| == |d|
      && ExtentStatus(g, d', first, blocks) == Ok
      && first + blocks <= |d|
      && Flat(d', first, 0, blocks * 512) == Flat(d, first, 0, blocks * 512)
  {
    hide EncodeInode, Splice, SectorBit;
    var d' := ApplyOp(d, PublishOp(g, crc, d, i));
    InodeBlockInTable(g, i.id);
    assert BitsKept(g, d, d') by {
      forall y: nat | y < g.totalBlocks && Allocated(g, d, y) ensures Allocated(g, d', y) {
        BitmapIndex(g, y);
      }
    }
    BitsKeptStatus(g, d, d', first, blocks);
  }

  lemma PublishChildren(g: Geometry, crc: Checksum, d0: Disk, d: Disk, dir: Inode, i: Inode)
    requires g.Valid(|d0|) && |d| == |d0| && TableSame(g, d0, d)
    requires InodeAt(g, crc, d0, dir.id) == Success(dir)
    requires i.id == dir.id && i.generation == dir.generation && i.kind == dir.kind
    requires Acceptable(i, i.id) && i.revision != 0
    ensures SameChildren(g, crc, d0, ApplyOp(d, PublishOp(g, crc, d, i)))
  {
    hide InodeAt, PublishOp, TableSame;
    var d' := ApplyOp(d, PublishOp(g, crc, d, i));
    forall id: U64 ensures ChildKey(InodeAt(g, crc, d', id)) == ChildKey(InodeAt(g, crc, d0, id)) {
      PublishedTable(g, crc, d, i, id);
      TableSameInode(g, crc, d0, d, id);
    }
  }

  /** The prepared image together with the published inode decodes to the old entries plus the new one. */
  lemma PublishedView(g: Geometry, crc: Checksum, d0: Disk, d: Disk, dir: Inode, first: U64, blocks: U64, entry: Entry)
    requires g.Valid(|d0|) && DirectoryStatus(g, crc, d0, dir) == Ok && DirSound(g, d0, dir)
    requires View(g, crc, d0, dir.id).Success?
    requires EntryAcceptable(entry) && entry.inodeId != dir.id
    requires ChildMatches(InodeAt(g, crc, d0, entry.inodeId), entry)
    requires ImageReady(g, d0, d, dir, first, blocks, EncodeRecord(crc, entry))
    requires dir.revision < UINT32_MAX && dir.size + 128 <= UINT64_MAX
    requires InodeExtentStatus(g, d, Candidate(dir, first, blocks)) == Ok
    ensures
      var i := Candidate(dir, first, blocks).(revision := dir.revision + 1);
      View(g, crc, ApplyOp(d, PublishOp(g, crc, d, i)), dir.id) == Success(View(g, crc, d0, dir.id).value + [entry])
  {
    hide InodeAt, PublishOp, EntryAt, CheckedEntry, Flat, AllAllocated, TableSame, BitsKept, ImageKept,
         EncodeRecord, SameChildren, EntryAcceptable, DivideRoundUp;
    var i := Candidate(dir, first, blocks).(revision := dir.revision + 1);
    var d' := ApplyOp(d, PublishOp(g, crc, d, i));
    var n := dir.size / 128;
    PublishedTable(g, crc, d, i, dir.id);
    PublishFrame(g, crc, d, i, first, blocks);
    PublishChildren(g, crc, d0, d, dir, i);
    FlatSlice(d', first, 0, dir.size, blocks * 512);
    FlatSlice(d, first, 0, dir.size, blocks * 512);
    FlatSlice(d', first, dir.size, 128, blocks * 512);
    FlatSlice(d, first, dir.size, 128, blocks * 512);
    assert n * 128 == dir.size && i.size / 128 == n + 1;
    if n != 0 {
      EntriesTransfer(g, crc, d0, dir, d', i, n);
    }
    EntryData(g, crc, d', i, n);
    NewRecordReads(g, crc, d0, d', entry);
    assert EntriesUpTo(g, crc, d', i, n) == View(g, crc, d0, dir.id);
    assert EntryAt(g, crc, d', i, n) == Success(entry);
    assert EntriesUpTo(g, crc, d', i, n + 1) == Success(View(g, crc, d0, dir.id).value + [entry]);
  }

  lemma NewRecordReads(g: Geometry, crc: Checksum, d0: Disk, d: Disk, entry: Entry)
    requires g.Valid(|d0|) && |d| == |d0| && SameChildren(g, crc, d0, d)
    requires EntryAcceptable(entry) && ChildMatches(InodeAt(g, crc, d0, entry.inodeId), entry)
    ensures CheckedEntry(g, crc, d, EncodeRecord(crc, entry)) == Success(entry)
  {
    hide InodeAt, EncodeRecord, DecodeRecord;
    RecordRoundTrip(crc, entry);
    CheckedEntryTransfer(g, crc, d0, d, EncodeRecord(crc, entry));
  }

  // ----- The contract of an append -----

  /** The record that appending name for child would add. */
  function NewEntry(g: Geometry, crc: Checksum, d: Disk, name: Name, child: U64): Entry
    requires g.Valid(|d|)
  {
    var read := InodeAt(g, crc, d, child);
    if read.Success? then Entry(name, child, read.value.generation, read.value.kind) else Entry(name, child, 0, 0)
  }

  predicate HasChild(entries: seq<Entry>, child: U64) {
    exists i :: 0 <= i < |entries| && entries[i].inodeId == child
  }

  /** The directory decodes to exactly what it was in d0, or to that plus the one new entry, new in name and child. */
  ghost predicate OldOrNew(g: Geometry, crc: Checksum, d0: Disk, d: Disk, id: U64, entry: Entry)
    requires g.Valid(|d0|) && |d| == |d0|
  {
    var before, after := View(g, crc, d0, id), View(g, crc, d, id);
    || after == before
    || (&& before.Success?
        && EntryAcceptable(entry) && !Named(before.value, entry.name) && !HasChild(before.value, entry.inodeId)
        && after == Success(before.value + [entry]))
  }

  /** Power may be lost at any moment while ops are accepted. */
  ghost predicate CutIsAtomic(g: Geometry, crc: Checksum, d0: Disk, ops: seq<Op>, id: U64, entry: Entry)
    requires g.Valid(|d0|)
  {
    forall d: Disk :: CrashPoint(d0, ops, d) ==> |d| == |d0| && OldOrNew(g, crc, d0, d, id, entry)
  }

  /** A successful append. */
  ghost predicate Appended(
    g: Geometry, crc: Checksum, d0: Disk, d: Disk, dir: Inode, name: Name, child: U64, updated: Inode)
    requires g.Valid(|d0|) && |d| == |d0|
  {
    && NameStatus(name) == Ok
    && InodeAt(g, crc, d0, dir.id) == Success(dir)
    && InodeAt(g, crc, d0, child).Success? && child != dir.id
    && View(g, crc, d0, dir.id).Success?
    && !Named(View(g, crc, d0, dir.id).value, name)
    && !HasChild(View(g, crc, d0, dir.id).value, child)
    && View(g, crc, d, dir.id) == Success(View(g, crc, d0, dir.id).value + [NewEntry(g, crc, d0, name, child)])
    && InodeAt(g, crc, d, dir.id) == Success(updated)
    && updated.revision == dir.revision + 1
  }

  /** The directory can be read, and neither the name nor the child is in it. */
  ghost predicate Vacant(g: Geometry, crc: Checksum, d: Disk, id: U64, name: seq<Byte>, child: U64)
    requires g.Valid(|d|)
  {
    var entries := View(g, crc, d, id);
    entries.Success? && !Named(entries.value, name) && !HasChild(entries.value, child)
  }

  /** Everything an append has checked and put in place, and flushed, when it comes to publish entry. */
  ghost predicate Prepared(
    g: Geometry, crc: Checksum, d0: Disk, prep: seq<Op>, dir: Inode, first: U64, blocks: U64, entry: Entry)
    requires g.Valid(|d0|)
  {
    && DirectoryStatus(g, crc, d0, dir) == Ok && Vacant(g, crc, d0, dir.id, entry.name, entry.inodeId)
    && EntryAcceptable(entry) && entry.inodeId != dir.id && ChildMatches(InodeAt(g, crc, d0, entry.inodeId), entry)
    && Flushed(prep) && HarmlessOps(g, d0, prep, dir)
    && ImageReady(g, d0, Apply(d0, prep), dir, first, blocks, EncodeRecord(crc, entry))
    && dir.size + 128 <= UINT64_MAX
  }

  /**
   The device operations of one append. Preparation is harmless, and touches only a directory whose records
   can all be read; then at most one inode write publishes the prepared image, and success means that write
   was flushed.
   */
  ghost predicate AppendSpec(
    g: Geometry, crc: Checksum, d0: Disk, dir: Inode, entry: Entry, prep: seq<Op>, upd: seq<Op>, result: Result<Inode>)
    requires g.Valid(|d0|)
  {
    && HarmlessOps(g, d0, prep, dir)
    && (prep != [] ==> Sound(g, crc, d0, dir))
    && if upd == [] then result.Failure? else
       exists first: U64, blocks: U64 ::
         && Prepared(g, crc, d0, prep, dir, first, blocks, entry)
         && UpdateSpec(g, crc, Apply(d0, prep), Candidate(dir, first, blocks), upd, result)
  }

  ghost predicate AppendRan(
    g: Geometry, crc: Checksum, d0: Disk, dir: Inode, entry: Entry, ops: seq<Op>, result: Result<Inode>)
    requires g.Valid(|d0|)
  {
    exists prep, upd :: ops == prep + upd && AppendSpec(g, crc, d0, dir, entry, prep, upd, result)
  }

  lemma KeptIsAtomic(g: Geometry, crc: Checksum, d0: Disk, ops: seq<Op>, dir: Inode, entry: Entry)
    requires g.Valid(|d0|) && DirectoryStatus(g, crc, d0, dir) == Ok && DirSound(g, d0, dir)
    requires HarmlessOps(g, d0, ops, dir)
    ensures CutIsAtomic(g, crc, d0, ops, dir.id, entry)
  {
    hide CrashPoint, View, InodeAt, InodeExtentStatus, HarmlessOps;
    forall d: Disk | CrashPoint(d0, ops, d) ensures |d| == |d0| && OldOrNew(g, crc, d0, d, dir.id, entry) {
      HarmlessCut(g, d0, ops, dir, d);
      KeepsView(g, crc, d0, d, dir);
    }
  }

  lemma NothingIsAtomic(g: Geometry, crc: Checksum, d0: Disk, id: U64, entry: Entry)
    requires g.Valid(|d0|)
    ensures CutIsAtomic(g, crc, d0, [], id, entry)
  {
  }

  /** After the flushed preparation, the only step left is the one-sector publication. */
  lemma PublicationIsAtomic(
    g: Geometry, crc: Checksum, d0: Disk, prep: seq<Op>, upd: seq<Op>, dir: Inode, first: U64, blocks: U64,
    entry: Entry, result: Result<Inode>)
    requires g.Valid(|d0|) && Prepared(g, crc, d0, prep, dir, first, blocks, entry)
    requires UpdateSpec(g, crc, Apply(d0, prep), Candidate(dir, first, blocks), upd, result)
    ensures CutIsAtomic(g, crc, d0, prep + upd, dir.id, entry)
    ensures result.Success? ==>
      && View(g, crc, Apply(d0, prep + upd), dir.id) == Success(View(g, crc, d0, dir.id).value + [entry])
      && InodeAt(g, crc, Apply(d0, prep + upd), dir.id) == result
      && result.value.revision == dir.revision + 1
  {
    hide CrashPoint, View, InodeAt, InodeExtentStatus, PublishOp, Apply, ImageReady, HarmlessOps, KeepsDir, Named,
         HasChild, EntryAcceptable, EncodeRecord, CutIsAtomic, DirectoryStatus;
    NameFits(entry);
    ViewIsSound(g, crc, d0, dir);
    var d3, c := Apply(d0, prep), Candidate(dir, first, blocks);
    KeptIsAtomic(g, crc, d0, prep, dir, entry);
    ApplyConcat(d0, prep, upd);
    assert View(g, crc, d3, dir.id) == View(g, crc, d0, dir.id) by {
      ImageReadyKeeps(g, d0, d3, dir, first, blocks, EncodeRecord(crc, entry));
      KeepsView(g, crc, d0, d3, dir);
    }
    if upd == [] {
      assert prep + upd == prep;
    } else {
      var i := c.(revision := c.revision + 1);
      var w := PublishOp(g, crc, d3, i);
      PublishedView(g, crc, d0, d3, dir, first, blocks, entry);
      OneMoreWrite(g, crc, d0, prep, upd, w, dir.id, entry);
      ApplyUpdate(d3, w, upd);
      PublishedTable(g, crc, d3, i, dir.id);
    }
  }

  /** An append cut anywhere leaves the directory as it was or with the one new entry; once it succeeded, with it. */
  lemma AppendIsAtomic(
    g: Geometry, crc: Checksum, d0: Disk, dir: Inode, entry: Entry, prep: seq<Op>, upd: seq<Op>, result: Result<Inode>)
    requires g.Valid(|d0|) && AppendSpec(g, crc, d0, dir, entry, prep, upd, result)
    ensures CutIsAtomic(g, crc, d0, prep + upd, dir.id, entry)
    ensures result.Success? ==>
      && Vacant(g, crc, d0, dir.id, entry.name, entry.inodeId)
      && View(g, crc, Apply(d0, prep + upd), dir.id) == Success(View(g, crc, d0, dir.id).value + [entry])
      && InodeAt(g, crc, Apply(d0, prep + upd), dir.id) == result
      && result.value.revision == dir.revision + 1
      && Flushed(prep + upd)
  {
    hide InodeAt, InodeExtentStatus, PublishOp, Apply, ImageReady, HarmlessOps, CutIsAtomic, Named, HasChild,
         EntryAcceptable, EntriesUpTo;
    if upd == [] {
      assert prep + upd == prep;
      if prep == [] {
        NothingIsAtomic(g, crc, d0, dir.id, entry);
      } else {
        ViewIsSound(g, crc, d0, dir);
        KeptIsAtomic(g, crc, d0, prep, dir, entry);
      }
    } else {
      var first: U64, blocks: U64 :|
        && Prepared(g, crc, d0, prep, dir, first, blocks, entry)
        && UpdateSpec(g, crc, Apply(d0, prep), Candidate(dir, first, blocks), upd, result);
      PublicationIsAtomic(g, crc, d0, prep, upd, dir, first, blocks, entry, result);
    }
  }

  /** A flushed atomic batch followed by one atomic sector write is atomic. */
  lemma OneMoreWrite(
    g: Geometry, crc: Checksum, d0: Disk, prep: seq<Op>, upd: seq<Op>, w: Op, id: U64, entry: Entry)
    requires g.Valid(|d0|) && Settled(prep) && CutIsAtomic(g, crc, d0, prep, id, entry)
    requires w.Write? && (upd == [w] || upd == [w, Flush])
    requires |Apply(d0, prep)| == |d0| && OldOrNew(g, crc, d0, Apply(d0, prep), id, entry)
    requires |ApplyOp(Apply(d0, prep), w)| == |d0| && OldOrNew(g, crc, d0, ApplyOp(Apply(d0, prep), w), id, entry)
    ensures CutIsAtomic(g, crc, d0, prep + upd, id, entry)
  {
    hide CrashPoint, Apply, ApplyOp, OldOrNew;
    forall d: Disk | CrashPoint(d0, prep + upd, d)
      ensures |d| == |d0| && OldOrNew(g, crc, d0, d, id, entry)
    {
      CrashPointSplit(d0, prep, upd, d);
      if CrashPoint(Apply(d0, prep), upd, d) {
        CrashPointOneWrite(Apply(d0, prep), w, upd, d);
      }
    }
  }

  lemma ImageReadyKeeps(g: Geometry, d0: Disk, d: Disk, dir: Inode, first: U64, blocks: U64, record: seq<Byte>)
    requires ImageReady(g, d0, d, dir, first, blocks, record)
    ensures KeepsDir(g, d0, d, dir)
  {
  }

  // ----- The operation -----

  lemma VacantAt(g: Geometry, crc: Checksum, d: Disk, dir: Inode, name: Name, child: U64, index: U64)
    requires g.Valid(|d|) && DirectoryStatus(g, crc, d, dir) == Ok && index < dir.size / 128
    ensures Vacant(g, crc, d, dir.id, name, child) ==>
      var e := EntryAt(g, crc, d, dir, index);
      e.Success? && e.value.name != name && e.value.inodeId != child
  {
    hide EntryAt;
    if Vacant(g, crc, d, dir.id, name, child) {
      EntriesPrefix(g, crc, d, dir, index, dir.size / 128);
    }
  }

  /** Everything the append checks and needs, on a device that does not fail. */
  ghost predicate Appendable(g: Geometry, crc: Checksum, d: Disk, dir: Inode, name: Name, child: U64)
    requires g.Valid(|d|)
  {
    && NameStatus(name) == Ok && DirectoryStatus(g, crc, d, dir) == Ok
    && child != 0 && child != dir.id && InodeAt(g, crc, d, child).Success?
    && Vacant(g, crc, d, dir.id, name, child)
    && dir.revision != UINT32_MAX && dir.size + 128 <= UINT64_MAX && dir.extentBlocks * 512 <= UINT64_MAX
    && RoomFor(g, d, dir)
  }

  /** The next record fits into the directory's extent, or a larger one can be allocated. */
  ghost predicate RoomFor(g: Geometry, d: Disk, dir: Inode)
    requires dir.size + 128 <= UINT64_MAX
  {
    if dir.size + 128 <= dir.extentBlocks * 512 then ExtentStatus(g, d, dir.extentStart, dir.extentBlocks) == Ok
    else
      var target := TargetBlocks(dir.extentBlocks, DivideRoundUp(dir.size + 128, 512));
      target * 512 <= UINT64_MAX && exists s: nat :: FreeRun(g, d, s, target)
  }

  /** With the image prepared, nothing stands in the way of the publication. */
  lemma PreparedMayPublish(
    g: Geometry, crc: Checksum, d0: Disk, d: Disk, dir: Inode, first: U64, blocks: U64, record: seq<Byte>)
    requires g.Valid(|d0|) && DirectoryStatus(g, crc, d0, dir) == Ok && dir.size + 128 <= UINT64_MAX
    requires ImageReady(g, d0, d, dir, first, blocks, record) && dir.revision != UINT32_MAX
    ensures |d| == |d0| && MayPublish(g, crc, d, Candidate(dir, first, blocks))
  {
    hide Flat, ImageKept, DecodeInode, ExtentStatus;
    TableSameInode(g, crc, d0, d, dir.id);
    StoredIsAcceptable(g, crc, d, dir.id);
  }

  lemma StoredIsAcceptable(g: Geometry, crc: Checksum, d: Disk, id: U64)
    requires g.Valid(|d|)
    ensures InodeAt(g, crc, d, id).Success? ==> Acceptable(InodeAt(g, crc, d, id).value, id) && 0 < id <= g.inodeCount
  {
  }

  method ScanForDuplicate(fs: FileSystem, dir: Inode, name: Name, child: U64) returns (status: Status)
    requires fs.Ready()
    requires DirectoryStatus(fs.geometry, fs.checksum, fs.device.sectors, dir) == Ok
    ensures status == Ok ==> Vacant(fs.geometry, fs.checksum, fs.device.sectors, dir.id, name, child)
    ensures status == AlreadyExists ==>
      exists index: U64, e ::
        && EntryAt(fs.geometry, fs.checksum, fs.device.sectors, dir, index) == Success(e)
        && (e.name == name || e.inodeId == child)
    ensures status != NotFound && status != WouldCreateCycle
    ensures fs.device.reliable && fs.mounted ==>
      Vacant(fs.geometry, fs.checksum, fs.device.sectors, dir.id, name, child) ==> status == Ok
  {
    hide InodeAt, EntryAt;
    var index: U64, count: U64 := 0, dir.size / 128;
    while index < count
      invariant 0 <= index <= count
      invariant EntriesUpTo(fs.geometry, fs.checksum, fs.device.sectors, dir, index).Success?
      invariant !Named(EntriesUpTo(fs.geometry, fs.checksum, fs.device.sectors, dir, index).value, name)
      invariant !HasChild(EntriesUpTo(fs.geometry, fs.checksum, fs.device.sectors, dir, index).value, child)
    {
      var existing: Entry;
      VacantAt(fs.geometry, fs.checksum, fs.device.sectors, dir, name, child, index);
      status, existing := DirectoryEntryAt(fs, dir, index);
      if status != Ok {
        EntryErrors(fs.geometry, fs.checksum, fs.device.sectors, dir, index);
        return;
      }
      if existing.name == name || existing.inodeId == child {
        return AlreadyExists;
      }
      index := index + 1;
    }
    status := Ok;
  }

  lemma EntryErrors(g: Geometry, crc: Checksum, d: Disk, dir: Inode, index: U64)
    requires g.Valid(|d|)
    ensures EntryAt(g, crc, d, dir, index) != Failure(AlreadyExists)
    ensures EntryAt(g, crc, d, dir, index) != Failure(WouldCreateCycle)
  {
    hide InodeAt, DecodeRecord, Flat;
  }

  /** Puts the record behind the old ones, in place or in a larger copy. */
  method PrepareImage(fs: FileSystem, dir: Inode, record: seq<Byte>) returns (status: Status, first: U64, blocks: U64)
    requires fs.Ready() && |record| == 128 && DirSound(fs.geometry, fs.device.sectors, dir)
    requires DirectoryStatus(fs.geometry, fs.checksum, fs.device.sectors, dir) == Ok
    modifies fs.device
    ensures old(fs.device.log) <= fs.device.log
    ensures fs.device.sectors == Apply(old(fs.device.sectors), fs.device.Since(|old(fs.device.log)|))
    ensures HarmlessOps(fs.geometry, old(fs.device.sectors), fs.device.Since(|old(fs.device.log)|), dir)
    ensures status == Ok ==> dir.size + 128 <= UINT64_MAX && Flushed(fs.device.Since(|old(fs.device.log)|))
    ensures status == Ok ==>
      ImageReady(fs.geometry, old(fs.device.sectors), fs.device.sectors, dir, first, blocks, record)
    ensures fs.device.reliable && fs.mounted && dir.size + 128 <= UINT64_MAX && dir.extentBlocks * 512 <= UINT64_MAX ==>
      RoomFor(fs.geometry, old(fs.device.sectors), dir) ==> status == Ok
  {
    hide Apply, ImageReady, Harmless, DirSound, DirectoryStatus, ExtentStatus, FreeRun, DivideRoundUp;
    assert fs.device.Since(|fs.device.log|) == [];
    ApplyNothing(fs.device.sectors);
    first, blocks := dir.extentStart, dir.extentBlocks;
    var requiredSize, oldCapacity := AddU64(dir.size, 128), MultiplyU64(dir.extentBlocks, 512);
    if requiredSize.Failure? || oldCapacity.Failure? {
      return ArithmeticOverflow, first, blocks;
    }
    if requiredSize.value > oldCapacity.value {
      status, first, blocks := CopyOnGrow(fs, dir, record, requiredSize.value);
    } else {
      status := AppendInPlace(fs, dir, record);
    }
  }

  /** Prepares and publishes the new entry of a directory that was checked. */
  method AppendChecked(fs: FileSystem, dir: Inode, entry: Entry) returns (status: Status, updated: Inode)
    requires fs.Ready() && DirectoryStatus(fs.geometry, fs.checksum, fs.device.sectors, dir) == Ok
    requires Vacant(fs.geometry, fs.checksum, fs.device.sectors, dir.id, entry.name, entry.inodeId)
    requires EntryAcceptable(entry) && entry.inodeId != dir.id
    requires ChildMatches(InodeAt(fs.geometry, fs.checksum, fs.device.sectors, entry.inodeId), entry)
    modifies fs.device
    ensures old(fs.device.log) <= fs.device.log
    ensures fs.device.sectors == Apply(old(fs.device.sectors), fs.device.Since(|old(fs.device.log)|))
    ensures AppendRan(
      fs.geometry, fs.checksum, old(fs.device.sectors), dir, entry, fs.device.Since(|old(fs.device.log)|),
      if status == Ok then Success(updated) else Failure(status))
    ensures CutIsAtomic(
      fs.geometry, fs.checksum, old(fs.device.sectors), fs.device.Since(|old(fs.device.log)|), dir.id, entry)
    ensures status == Ok ==>
      && View(fs.geometry, fs.checksum, fs.device.sectors, dir.id)
         == Success(old(View(fs.geometry, fs.checksum, fs.device.sectors, dir.id)).value + [entry])
      && InodeAt(fs.geometry, fs.checksum, fs.device.sectors, dir.id) == Success(updated)
      && updated.revision == dir.revision + 1
      && Flushed(fs.device.Since(|old(fs.device.log)|))
    ensures status != Ok ==> updated == dir
    ensures fs.device.reliable && fs.mounted && dir.size + 128 <= UINT64_MAX && dir.extentBlocks * 512 <= UINT64_MAX ==>
      RoomFor(fs.geometry, old(fs.device.sectors), dir) && dir.revision != UINT32_MAX ==> status == Ok
  {
    hide InodeAt, View, Apply, ImageReady, HarmlessOps, EntryAcceptable, UpdateSpec, Vacant, CutIsAtomic,
         InodeExtentStatus, DivideRoundUp, EncodeRecord, MayPublish, ExtentStatus, FreeRun, RoomFor, DirectoryStatus;
    var g := fs.geometry;
    ghost var d0, n, crc := fs.device.sectors, |fs.device.log|, fs.checksum;
    updated := dir;
    VacantIsSound(g, crc, d0, dir, entry.name, entry.inodeId);
    assert |entry.name| <= 63 by { NameFits(entry); }
    var record := EncodeRecord(fs.checksum, entry);
    var first: U64, blocks: U64;
    status, first, blocks := PrepareImage(fs, dir, record);
    ghost var prep, n1 := fs.device.Since(n), |fs.device.log|;
    if status != Ok {
      assert prep == prep + [];
      assert AppendSpec(g, crc, d0, dir, entry, prep, [], Failure(status));
      RanIsAtomic(g, crc, d0, dir, entry, prep, Failure(status));
      return;
    }
    if dir.revision != UINT32_MAX {
      PreparedMayPublish(g, crc, d0, fs.device.sectors, dir, first, blocks, record);
    }
    assert Prepared(g, crc, d0, prep, dir, first, blocks, entry);
    var candidate: Inode;
    status, candidate := UpdateInode(fs, Candidate(dir, first, blocks));
    Sequence(d0, fs.device.log, n, n1);
    assert fs.device.log[n..n1] == prep;
    if status == Ok {
      updated := candidate;
    }
    UpdateFails(g, crc, Apply(d0, prep), Candidate(dir, first, blocks), fs.device.Since(n1),
                if status == Ok then Success(candidate) else Failure(status));
    ghost var result := if status == Ok then Success(updated) else Failure(status);
    assert AppendSpec(g, crc, d0, dir, entry, prep, fs.device.Since(n1), result);
    RanIsAtomic(g, crc, d0, dir, entry, fs.device.Since(n), result);
  }

  lemma UpdateFails(g: Geometry, crc: Checksum, d: Disk, i: Inode, ops: seq<Op>, result: Result<Inode>)
    requires g.Valid(|d|) && UpdateSpec(g, crc, d, i, ops, result)
    ensures ops == [] ==> result.Failure?
  {
  }

  lemma NameFits(e: Entry)
    requires EntryAcceptable(e)
    ensures |e.name| <= 63
  {
  }

  method DirectoryAppend(fs: FileSystem, directory: Inode, name: Name, childId: U64)
    returns (status: Status, directory': Inode)
    requires fs.Ready()
    modifies fs.device
    ensures old(fs.device.log) <= fs.device.log
    ensures fs.device.sectors == Apply(old(fs.device.sectors), fs.device.Since(|old(fs.device.log)|))
    ensures AppendRan(
      fs.geometry, fs.checksum, old(fs.device.sectors), directory,
      NewEntry(fs.geometry, fs.checksum, old(fs.device.sectors), name, childId), fs.device.Since(|old(fs.device.log)|),
      if status == Ok then Success(directory') else Failure(status))
    ensures CutIsAtomic(
      fs.geometry, fs.checksum, old(fs.device.sectors), fs.device.Since(|old(fs.device.log)|), directory.id,
      NewEntry(fs.geometry, fs.checksum, old(fs.device.sectors), name, childId))
    ensures status == Ok ==> Flushed(fs.device.Since(|old(fs.device.log)|))
    ensures status == Ok ==>
      Appended(
        fs.geometry, fs.checksum, old(fs.device.sectors), fs.device.sectors, directory, name, childId, directory')
    ensures status != Ok ==> directory' == directory
    ensures fs.device.reliable && fs.mounted ==>
      Appendable(fs.geometry, fs.checksum, old(fs.device.sectors), directory, name, childId) ==> status == Ok
  {
    hide InodeAt, View, Apply, EntryAcceptable, CutIsAtomic, AppendRan, NameStatus, RoomFor;
    var g := fs.geometry;
    ghost var d0, n, crc := fs.device.sectors, |fs.device.log|, fs.checksum;
    directory' := directory;
    assert fs.device.Since(n) == [];
    ApplyNothing(d0);
    NothingAppended(g, crc, d0, directory, NewEntry(g, crc, d0, name, childId));
    if childId == 0 {
      return InvalidArgument, directory;
    }
    if !fs.mounted {
      return NotMounted, directory;
    }
    var length: nat;
    status, length := ParseDirectoryName(name);
    if status != Ok {
      return;
    }
    var current: Inode;
    status, current := RequireCurrentSnapshot(fs, directory);
    if status != Ok {
      return;
    }
    if current.kind != DIRECTORY {
      return NotDirectory, directory;
    }
    if current.size % 128 != 0 {
      return CorruptDirectory, directory;
    }
    if childId == current.id {
      return InvalidArgument, directory;
    }
    status := ScanForDuplicate(fs, current, name, childId);
    if status != Ok {
      return;
    }
    var child: Inode;
    status, child := ReadInode(fs, childId);
    if status != Ok {
      return;
    }
    EntryIsAcceptable(name, child, childId);
    status, directory' := AppendChecked(fs, current, Entry(name, child.id, child.generation, child.kind));
  }

  lemma NothingAppended(g: Geometry, crc: Checksum, d0: Disk, dir: Inode, entry: Entry)
    requires g.Valid(|d0|)
    ensures CutIsAtomic(g, crc, d0, [], dir.id, entry)
    ensures forall e: Status :: AppendRan(g, crc, d0, dir, entry, [], Failure(e))
  {
    hide InodeAt, View, CrashPoint;
    NothingIsAtomic(g, crc, d0, dir.id, entry);
    forall e: Status ensures AppendRan(g, crc, d0, dir, entry, [], Failure(e)) {
      var none: seq<Op> := [];
      assert none == none + none && AppendSpec(g, crc, d0, dir, entry, none, none, Failure(e));
    }
  }

  lemma RanIsAtomic(
    g: Geometry, crc: Checksum, d0: Disk, dir: Inode, entry: Entry, ops: seq<Op>, result: Result<Inode>)
    requires g.Valid(|d0|) && AppendRan(g, crc, d0, dir, entry, ops, result)
    ensures CutIsAtomic(g, crc, d0, ops, dir.id, entry)
    ensures result.Success? ==>
      && Vacant(g, crc, d0, dir.id, entry.name, entry.inodeId)
      && View(g, crc, Apply(d0, ops), dir.id) == Success(View(g, crc, d0, dir.id).value + [entry])
      && InodeAt(g, crc, Apply(d0, ops), dir.id) == result
      && result.value.revision == dir.revision + 1
      && Flushed(ops)
  {
    hide AppendSpec, CutIsAtomic, Vacant, View, Apply, InodeAt;
    var prep, upd :| ops == prep + upd && AppendSpec(g, crc, d0, dir, entry, prep, upd, result);
    AppendIsAtomic(g, crc, d0, dir, entry, prep, upd, result);
  }

  lemma EntryIsAcceptable(name: Name, child: Inode, childId: U64)
    requires NameStatus(name) == Ok && Acceptable(child, childId) && childId != 0
    ensures EntryAcceptable(Entry(name, child.id, child.generation, child.kind))
  {
  }

  /** A directory whose records could all be read owns its blocks. */
  lemma ViewIsSound(g: Geometry, crc: Checksum, d: Disk, dir: Inode)
    requires g.Valid(|d|) && DirectoryStatus(g, crc, d, dir) == Ok && View(g, crc, d, dir.id).Success?
    ensures DirSound(g, d, dir)
  {
  }

  lemma VacantIsSound(g: Geometry, crc: Checksum, d: Disk, dir: Inode, name: seq<Byte>, child: U64)
    requires g.Valid(|d|) && DirectoryStatus(g, crc, d, dir) == Ok && Vacant(g, crc, d, dir.id, name, child)
    ensures DirSound(g, d, dir) && Sound(g, crc, d, dir)
  {
    hide InodeAt, View;
    ViewIsSound(g, crc, d, dir);
  }
}
