/**
 Moving a directory entry between two directories. The move updates two inodes,
 so it announces itself in both superblock copies first; mounting finds an
 unfinished announcement and completes or undoes the move.
 */
module KuroMove {
  import opened Bytes
  import opened Options
  import opened KuroDisk
  import opened KuroBitmap
  import opened KuroAlloc
  import opened KuroInode
  import opened KuroDirectory
  import opened KuroAppendOp
  import opened KuroVersion
  import opened KuroSuper
  import opened KuroRelease
  import opened KuroPlan
  import opened KuroMoveState
  import opened KuroMoveRecover
  import opened KuroMovePrepare
  import opened KuroMovePlan
  import opened KuroMoveJob
  import opened KuroOwner
  import opened KuroTree
  import opened KuroCheck

  // ----- What a move is asked to do -----

  /** The position of the last entry of that name. */
  function LastPosition(entries: seq<Entry>, name: seq<Byte>): (i: nat)
    requires Named(entries, name)
    ensures i < |entries| && entries[i].name == name && !Named(entries[i + 1..], name)
  {
    var n := |entries| - 1;
    if entries[n].name == name then n
    else
      assert Named(entries[..n], name) by {
        var i :| 0 <= i < |entries| && entries[i].name == name;
        assert entries[..n][i].name == name;
      }
      var i := LastPosition(entries[..n], name);
      assert !Named(entries[i + 1..], name) by {
        assert entries[i + 1..] == entries[..n][i + 1..] + [entries[n]];
      }
      i
  }

  lemma LastMore(entries: seq<Entry>, e: Entry, name: seq<Byte>)
    ensures Named(entries + [e], name) <==> Named(entries, name) || e.name == name
    ensures e.name == name ==> LastPosition(entries + [e], name) == |entries|
    ensures e.name != name && Named(entries, name) ==> LastPosition(entries + [e], name) == LastPosition(entries, name)
  {
    assert (entries + [e])[|entries|] == e && (entries + [e])[..|entries|] == entries;
    if Named(entries, name) {
      var i :| 0 <= i < |entries| && entries[i].name == name;
      assert (entries + [e])[i].name == name;
    }
  }

  datatype Request = Request(source: Inode, sourceName: Name, destination: Inode, destinationName: Name)

  /** The entry a move would take out of the source. */
  ghost function MovedEntry(g: Geometry, crc: Checksum, d: Disk, r: Request): Entry
    requires g.Valid(|d|) && View(g, crc, d, r.source.id).Success?
    requires Named(View(g, crc, d, r.source.id).value, r.sourceName)
  {
    View(g, crc, d, r.source.id).value[LastPosition(View(g, crc, d, r.source.id).value, r.sourceName)]
  }

  /** The entry is a directory that is the destination or contains it. */
  ghost predicate MovesIntoItself(g: Geometry, crc: Checksum, d: Disk, r: Request)
    requires g.Valid(|d|)
  {
    && View(g, crc, d, r.source.id).Success? && Named(View(g, crc, d, r.source.id).value, r.sourceName)
    && Above(g, crc, d, MovedEntry(g, crc, d, r).inodeId, r.destination.id)
  }

  /** Everything a move checks before it writes. */
  ghost predicate MayMove(g: Geometry, crc: Checksum, d: Disk, r: Request)
    requires g.Valid(|d|)
  {
    && NameStatus(r.sourceName) == Ok && NameStatus(r.destinationName) == Ok
    && DirectoryStatus(g, crc, d, r.source) == Ok && DirectoryStatus(g, crc, d, r.destination) == Ok
    && r.source.revision != UINT32_MAX && r.destination.revision != UINT32_MAX
    && View(g, crc, d, r.source.id).Success? && Named(View(g, crc, d, r.source.id).value, r.sourceName)
    && var moved := MovedEntry(g, crc, d, r);
    && Vacant(g, crc, d, r.destination.id, r.destinationName, moved.inodeId)
    && InodeAt(g, crc, d, moved.inodeId).Success?
    && var child := InodeAt(g, crc, d, moved.inodeId).value;
    && !ExtentsOverlap(r.source, r.destination) && !ExtentsOverlap(r.source, child)
    && !ExtentsOverlap(r.destination, child)
    && (child.kind == DIRECTORY ==> MayHold(g, crc, d, moved.inodeId, r.destination.id))
  }

  /** The job takes the named entry out of the source and puts it at the end of the destination under its new name. */
  ghost predicate Describes(g: Geometry, crc: Checksum, d: Disk, j: Job, r: Request)
    requires g.Valid(|d|)
  {
    && MayMove(g, crc, d, r) && j.src0.inode == r.source && j.dst0.inode == r.destination
    && var moved := MovedEntry(g, crc, d, r);
    && View(g, crc, d, r.source.id) == Success(j.src0.list) && View(g, crc, d, r.destination.id) == Success(j.dst0.list)
    && j.childId == moved.inodeId && j.childGeneration == moved.generation && j.childKind == moved.kind
    && j.src1.list == WithoutEntry(j.src0.list, LastPosition(j.src0.list, r.sourceName))
    && j.dst1.list == j.dst0.list + [moved.(name := r.destinationName)]
  }

  // ----- The checks -----

  lemma EntryOfView(g: Geometry, crc: Checksum, d: Disk, dir: Inode, index: U64)
    requires g.Valid(|d|) && DirectoryStatus(g, crc, d, dir) == Ok && index < dir.size / 128
    ensures View(g, crc, d, dir.id).Success? ==> EntryAt(g, crc, d, dir, index).Success?
  {
    hide InodeAt, EntryAt;
    if View(g, crc, d, dir.id).Success? {
      EntriesPrefix(g, crc, d, dir, index, dir.size / 128);
    }
  }

  /** A listed entry's child is in the table with the entry's generation and type. */
  lemma ListedChild(g: Geometry, crc: Checksum, d: Disk, dir: Inode, index: nat)
    requires g.Valid(|d|) && DirectoryStatus(g, crc, d, dir) == Ok && View(g, crc, d, dir.id).Success?
    requires index < |View(g, crc, d, dir.id).value|
    ensures
      var e := View(g, crc, d, dir.id).value[index];
      ChildMatches(InodeAt(g, crc, d, e.inodeId), e)
  {
    hide InodeAt, DataAt, DecodeRecord;
    EntriesPrefix(g, crc, d, dir, index, dir.size / 128);
  }

  lemma NameErrors(name: Name)
    ensures NameStatus(name) != NotFound && NameStatus(name) != WouldCreateCycle
  {
  }

  /** Scans the whole source for the last entry of the name. */
  method FindEntry(
    fs: FileSystem, dir: Inode, name: Name) returns (status: Status, found: bool, index: U64, entry: Entry)
    requires fs.Ready() && DirectoryStatus(fs.geometry, fs.checksum, fs.device.sectors, dir) == Ok
    ensures status == Ok ==>
      && View(fs.geometry, fs.checksum, fs.device.sectors, dir.id).Success?
      && var list := View(fs.geometry, fs.checksum, fs.device.sectors, dir.id).value;
      && (found <==> Named(list, name))
      && (found ==> index == LastPosition(list, name) && entry == list[index])
    ensures status != NotFound && status != WouldCreateCycle
    ensures fs.device.reliable && fs.mounted && View(fs.geometry, fs.checksum, fs.device.sectors, dir.id).Success? ==>
      status == Ok
  {
    hide InodeAt, EntryAt, LastPosition;
    found, index, entry := false, 0, Entry([], 0, 0, 0);
    status := Ok;
    var i: U64, count: U64 := 0, dir.size / 128;
    while i < count
      invariant 0 <= i <= count && status == Ok
      invariant EntriesUpTo(fs.geometry, fs.checksum, fs.device.sectors, dir, i).Success?
      invariant found <==> Named(EntriesUpTo(fs.geometry, fs.checksum, fs.device.sectors, dir, i).value, name)
      invariant found ==>
        var list := EntriesUpTo(fs.geometry, fs.checksum, fs.device.sectors, dir, i).value;
        index == LastPosition(list, name) && entry == list[index]
    {
      var next: Entry;
      EntryOfView(fs.geometry, fs.checksum, fs.device.sectors, dir, i);
      status, next := DirectoryEntryAt(fs, dir, i);
      if status != Ok {
        EntryErrors(fs.geometry, fs.checksum, fs.device.sectors, dir, i);
        return;
      }
      LastMore(EntriesUpTo(fs.geometry, fs.checksum, fs.device.sectors, dir, i).value, next, name);
      if next.name == name {
        found, index, entry := true, i, next;
      }
      i := i + 1;
    }
  }

  /** Everything that is checked before the first write, in the order of the checks. */
  method CheckMove(fs: FileSystem, r: Request) returns (status: Status, index: U64, moved: Entry, child: Inode)
    requires fs.Ready()
    ensures status == Ok ==>
      && fs.mounted && MayMove(fs.geometry, fs.checksum, fs.device.sectors, r)
      && index == LastPosition(View(fs.geometry, fs.checksum, fs.device.sectors, r.source.id).value, r.sourceName)
      && moved == MovedEntry(fs.geometry, fs.checksum, fs.device.sectors, r)
      && InodeAt(fs.geometry, fs.checksum, fs.device.sectors, moved.inodeId) == Success(child)
      && child.generation == moved.generation && child.kind == moved.kind
    ensures fs.device.reliable && fs.mounted && MayMove(fs.geometry, fs.checksum, fs.device.sectors, r) ==> status == Ok
    ensures status == NotFound ==>
      && View(fs.geometry, fs.checksum, fs.device.sectors, r.source.id).Success?
      && !Named(View(fs.geometry, fs.checksum, fs.device.sectors, r.source.id).value, r.sourceName)
    ensures status == WouldCreateCycle ==>
      MovesIntoItself(fs.geometry, fs.checksum, fs.device.sectors, r)
  {
    hide InodeAt, View, Vacant, LastPosition, NameStatus, MayHold, Above;
    index, moved, child := 0, Entry([], 0, 0, 0), Inode(0, 0, 0, 0, 0, 0, 0, 0, 0);
    if !fs.mounted {
      status := NotMounted;
      return;
    }
    var length: nat;
    status, length := ParseDirectoryName(r.sourceName);
    if status != Ok {
      NameErrors(r.sourceName);
      return;
    }
    status, length := ParseDirectoryName(r.destinationName);
    if status != Ok {
      NameErrors(r.destinationName);
      return;
    }
    var source: Inode, destination: Inode;
    status, source := RequireCurrentSnapshot(fs, r.source);
    if status != Ok {
      return;
    }
    status, destination := RequireCurrentSnapshot(fs, r.destination);
    if status != Ok {
      return;
    }
    if source.kind != DIRECTORY || destination.kind != DIRECTORY {
      status := NotDirectory;
      return;
    }
    if source.size % 128 != 0 || destination.size % 128 != 0 {
      status := CorruptDirectory;
      return;
    }
    if source.revision == UINT32_MAX || destination.revision == UINT32_MAX {
      status := ArithmeticOverflow;
      return;
    }
    var found: bool;
    status, found, index, moved := FindEntry(fs, source, r.sourceName);
    if status != Ok {
      return;
    }
    if !found {
      status := NotFound;
      return;
    }
    status := ScanForDuplicate(fs, destination, r.destinationName, moved.inodeId);
    if status != Ok {
      return;
    }
    var readStatus;
    readStatus, child := ReadInode(fs, moved.inodeId);
    ListedChild(fs.geometry, fs.checksum, fs.device.sectors, source, index);
    if readStatus != Ok || child.generation != moved.generation || child.kind != moved.kind {
      status := CorruptDirectory;
      return;
    }
    if ExtentsOverlap(source, destination) || ExtentsOverlap(source, child) || ExtentsOverlap(destination, child) {
      status := InvalidExtent;
      return;
    }
    if child.kind == DIRECTORY {
      var cycle: bool;
      StoredIsAcceptable(fs.geometry, fs.checksum, fs.device.sectors, destination.id);
      StoredIsAcceptable(fs.geometry, fs.checksum, fs.device.sectors, moved.inodeId);
      status, cycle := CreatesCycle(fs, child.id, destination.id);
      if status == Ok && cycle {
        status := WouldCreateCycle;
      }
    }
  }

  // ----- From the checks to a job -----

  /** What mounting established of every inode. */
  ghost predicate AllValidated(g: Geometry, crc: Checksum, d: Disk, features: U64)
    requires g.Valid(|d|)
  {
    forall id: U64 :: InodeAt(g, crc, d, id).Success? ==>
      var i := InodeAt(g, crc, d, id).value;
      Validated(g, d, i) && FlagsAllowed(i.flags, features)
  }

  /** A healthy volume that knows ownership flags, which is what mounting hands out, is ready for moves. */
  lemma HealthyIsValidated(g: Geometry, crc: Checksum, d: Disk, features: U64)
    requires g.Valid(|d|) && Healthy(g, crc, d) && features / 2 % 2 == 1
    ensures AllValidated(g, crc, d, features)
  {
    hide InodeAt, SlotAt, GoodDirectory, Unshared, GoodParent, InodeExtentStatus;
    forall id: U64 | InodeAt(g, crc, d, id).Success?
      ensures Validated(g, d, InodeAt(g, crc, d, id).value)
    {
      StoredIsAcceptable(g, crc, d, id);
      assert GoodSlot(g, crc, d, id);
    }
  }

  ghost function EmptyJob(generation: U64, features: U64, r: Request): Job {
    Job(generation, features, 0, 0, 0, Version(r.source, [], []), Version(r.source, [], []),
        Version(r.destination, [], []), Version(r.destination, [], []))
  }

  /** A move that passed its checks can begin: both directories are carried, owned and apart. */
  lemma BeginJob(g: Geometry, crc: Checksum, d: Disk, r: Request, generation: U64, features: U64) returns (k: Job)
    requires g.Valid(|d|) && MayMove(g, crc, d, r) && AllValidated(g, crc, d, features)
    requires r.source.id != r.destination.id
    ensures JobBegun(g, crc, d, k) && k.generation == generation && k.features == features
    ensures k.src0.inode == r.source && k.dst0.inode == r.destination
    ensures View(g, crc, d, r.source.id) == Success(k.src0.list)
    ensures View(g, crc, d, r.destination.id) == Success(k.dst0.list)
    ensures
      var moved := MovedEntry(g, crc, d, r);
      k.childId == moved.inodeId && k.childGeneration == moved.generation && k.childKind == moved.kind
  {
    hide InodeAt, View, Carries, LastPosition, Validated;
    var moved := MovedEntry(g, crc, d, r);
    var v := ViewCarried(g, crc, d, r.source);
    var w := ViewCarried(g, crc, d, r.destination);
    k := Job(generation, features, moved.inodeId, moved.generation, moved.kind, v, v, w, w);
    ListedChild(g, crc, d, r.source, LastPosition(View(g, crc, d, r.source.id).value, r.sourceName));
  }

  lemma MovedAcceptable(g: Geometry, crc: Checksum, d: Disk, r: Request, child: Inode)
    requires g.Valid(|d|) && MayMove(g, crc, d, r)
    requires InodeAt(g, crc, d, MovedEntry(g, crc, d, r).inodeId) == Success(child)
    ensures EntryAcceptable(Entry(r.destinationName, child.id, child.generation, child.kind))
  {
    hide InodeAt, View, LastPosition, NameStatus;
    EntryIsAcceptable(r.destinationName, child, child.id);
  }

  lemma JobDescribes(g: Geometry, crc: Checksum, d: Disk, k: Job, j: Job, r: Request)
    requires g.Valid(|d|) && MayMove(g, crc, d, r)
    requires k.src0.inode == r.source && k.dst0.inode == r.destination
    requires View(g, crc, d, r.source.id) == Success(k.src0.list)
    requires View(g, crc, d, r.destination.id) == Success(k.dst0.list)
    requires
      var moved := MovedEntry(g, crc, d, r);
      && k.childId == moved.inodeId && k.childGeneration == moved.generation && k.childKind == moved.kind
      && j == k.(generation := j.generation, features := j.features, src1 := j.src1, dst1 := j.dst1)
      && j.src1.list == WithoutEntry(k.src0.list, LastPosition(k.src0.list, r.sourceName))
      && j.dst1.list == k.dst0.list + [Entry(r.destinationName, moved.inodeId, moved.generation, moved.kind)]
    ensures Describes(g, crc, d, j, r)
  {
    hide View, LastPosition, WithoutEntry, MayMove;
  }

  /** Wherever power is cut, both directories are untouched or mounting can settle the move. */
  ghost predicate CutSettles(g: Geometry, crc: Checksum, d0: Disk, ops: seq<Op>, j: Job)
    requires g.Valid(|d0|)
  {
    forall e: Disk :: CrashPoint(d0, ops, e) ==>
      Untouched(g, crc, d0, e, j.src0.inode.id, j.dst0.inode.id) || Recoverable(g, crc, e, j)
  }

  /** What an attempt that ran means for the two directories. */
  lemma MoveOutcome(g: Geometry, crc: Checksum, d0: Disk, start: Super, j: Job, r: Request, ops: seq<Op>, done: bool)
    requires g.Valid(|d0|) && JobBegun(g, crc, d0, j) && AttemptRan(g, crc, d0, start, j, ops, done)
    requires j.generation != 0 && j.features <= 3 && j.features % 2 == 1
    requires j.src0.inode.id == r.source.id && j.dst0.inode.id == r.destination.id
    ensures QuietCopies(crc, d0, start) ==> CutSettles(g, crc, d0, ops, j)
    ensures done ==>
      && Settled(ops) && |Apply(d0, ops)| == |d0|
      && View(g, crc, Apply(d0, ops), r.source.id) == Success(j.src1.list)
      && View(g, crc, Apply(d0, ops), r.destination.id) == Success(j.dst1.list)
  {
    hide JobBegun, AttemptRan, QuietCopies, CrashPoint, Untouched, Recoverable, Apply, View, Sane, Carries, InodeAt,
         DisjointExtents;
    if QuietCopies(crc, d0, start) {
      forall e: Disk | CrashPoint(d0, ops, e)
        ensures Untouched(g, crc, d0, e, j.src0.inode.id, j.dst0.inode.id) || Recoverable(g, crc, e, j)
      {
        AttemptCut(g, crc, d0, start, j, ops, done, e);
      }
    }
    AttemptCut(g, crc, d0, start, j, ops, done, d0);
    if done {
      CarriedView(g, crc, Apply(d0, ops), j.src1);
      CarriedView(g, crc, Apply(d0, ops), j.dst1);
    }
  }

  /** The snapshots handed back: the old ones if the parents were not published, else the ones now in the table. */
  ghost predicate Returned(
    g: Geometry, crc: Checksum, d: Disk, j: Job, status: Status, source: Inode, destination: Inode)
  {
    || (status != Ok && source == j.src0.inode && destination == j.dst0.inode)
    || (&& g.Valid(|d|) && At(g, crc, d, j, true, true)
        && source == j.src1.inode && destination == j.dst1.inode)
  }

  /** Once both publications are flushed, the table holds the new parents, whatever else is done. */
  lemma PublishedAt(g: Geometry, crc: Checksum, d: Disk, j: Job, q: seq<Op>, rel: seq<Op>, status: Status)
    requires g.Valid(|d|) && JobShape(g, j) && Ran(MovePlan(g, crc, d, j), q, rel != [] || status == Ok)
    requires FreeOps(g, Apply(d, q), rel, OldExtents(IntentOf(j)))
    ensures Full(g, crc, d, j, false, false) && |q| >= 8 ==>
      Returned(g, crc, Apply(d, q + rel), j, status, j.src1.inode, j.dst1.inode)
  {
    hide JobShape, Full, At, MovePlan, Steps, Apply, FreeOps;
    if Full(g, crc, d, j, false, false) && |q| >= 8 {
      var plan, x := MovePlan(g, crc, d, j), OldExtents(IntentOf(j));
      var m := |q| / 2 + |q| % 2;
      RanNow(d, plan, q, |q| / 2, m);
      MoveStates(g, crc, d, j, m);
      FullIsAt(g, crc, Apply(d, q), j, true, true);
      FreeApply(g, Apply(d, q), rel, x);
      FreedSupers(g, crc, Apply(d, q), Apply(Apply(d, q), rel), j, x);
      ApplyConcat(d, q, rel);
    }
  }

  lemma NothingFreedYet(g: Geometry, d: Disk, j: Job)
    ensures FreeOps(g, d, [], OldExtents(IntentOf(j)))
  {
  }

  lemma SameFlags(g: Geometry, j: Job)
    requires JobShape(g, j)
    ensures j.src1.inode.flags == j.src0.inode.flags && j.dst1.inode.flags == j.dst0.inode.flags
  {
    hide DisjointExtents;
  }

  // ----- The operation -----

  /** The feature upgrade takes and gives back no block. */
  lemma UpgradedBits(g: Geometry, crc: Checksum, d0: Disk, d1: Disk, d: Disk, j: Job, f: seq<Op>)
    requires g.Valid(|d0|) && (f == [] || f == Steps(PairPlan(crc, Clear(g, j)))) && d1 == Apply(d0, f)
    ensures SameBits(g, d1, d) ==> SameBits(g, d0, d)
  {
    hide Apply, Steps, PairPlan, SameBits;
    if SameBits(g, d1, d) {
      if f == [] {
        ApplyNothing(d0);
      } else {
        PairLow(g, crc, d0, Clear(g, j));
        SameBitsTrans(g, d0, d1, d);
      }
    }
  }

  /** The superblock with the move feature, unless there is no generation left for it. */
  ghost function Upgraded(s: Super): (r: Super)
    requires s.features <= 3
    ensures r.features / 2 == s.features / 2 && r.features <= 3 && r.geometry == s.geometry
    ensures r == s || (s.move.None? ==> Precedes(s, r))
  {
    if s.features % 2 == 1 || s.generation == UINT64_MAX then s
    else s.(generation := s.generation + 1, features := s.features + 1)
  }

  datatype Stage = Refused | Abandoned | Attempted

  class Volume {
    const device: Device
    const geometry: Geometry
    const checksum: Checksum
    var mounted: bool
    var generation: U64
    var features: U64

    /** The volume that mounting selected. */
    constructor (fs: FileSystem, s: Super)
      ensures device == fs.device && geometry == fs.geometry && checksum == fs.checksum && mounted == fs.mounted
      ensures generation == s.generation && features == s.features
    {
      device, geometry, checksum, mounted := fs.device, fs.geometry, fs.checksum, fs.mounted;
      generation, features := s.generation, s.features;
    }

    function Fs(): FileSystem
      reads this
    {
      FileSystem(device, geometry, mounted, checksum)
    }

    ghost predicate Ready()
      reads this, device
    {
      geometry.Valid(|device.sectors|)
    }

    /** Rewrites both copies under the next generation if the volume lacks the move feature. */
    method EnsureMoveFeature() returns (status: Status)
      requires Ready()
      modifies this, device
      ensures old(device.log) <= device.log
      ensures device.sectors == Apply(old(device.sectors), device.Since(|old(device.log)|))
      ensures old(features) % 2 == 1 || old(generation) == UINT64_MAX ==>
        device.log == old(device.log) && mounted == old(mounted)
        && generation == old(generation) && features == old(features)
      ensures old(features) % 2 == 1 ==> status == Ok
      ensures old(features) % 2 == 0 && old(generation) == UINT64_MAX ==> status == ArithmeticOverflow
      ensures old(features) % 2 == 0 && old(generation) < UINT64_MAX ==>
        && Ran(PairPlan(checksum, Super(geometry, old(generation) + 1, old(features) + 1, None)),
               device.Since(|old(device.log)|), status == Ok)
        && mounted == (old(mounted) && status == Ok)
        && (status == Ok ==> generation == old(generation) + 1 && features == old(features) + 1)
      ensures status == Ok ==> features % 2 == 1
      ensures status == ArithmeticOverflow ==> old(features) % 2 == 0 && old(generation) == UINT64_MAX
      ensures status in {Ok, ArithmeticOverflow, BlockDeviceError} && (device.reliable ==> status != BlockDeviceError)
    {
      hide Apply, PairPlan, Steps;
      ApplyNothing(device.sectors);
      assert device.Since(|device.log|) == [];
      if features % 2 == 1 {
        return Ok;
      }
      if generation == UINT64_MAX {
        return ArithmeticOverflow;
      }
      var upgraded := Super(geometry, generation + 1, features + 1, None);
      status := WritePair(Fs(), upgraded);
      if status != Ok {
        mounted := false;
        return;
      }
      generation, features := upgraded.generation, upgraded.features;
    }

    /** Publishes the destination, then the source. */
    method PublishParents(source: Inode, destination: Inode, ghost j: Job)
      returns (status: Status, source': Inode, destination': Inode)
      requires Ready() && mounted && JobShape(geometry, j)
      requires source == j.src1.inode.(revision := j.src0.inode.revision)
      requires destination == j.dst1.inode.(revision := j.dst0.inode.revision)
      modifies device
      ensures old(device.log) <= device.log
      ensures device.sectors == Apply(old(device.sectors), device.Since(|old(device.log)|))
      ensures Ran(ParentPlan(geometry, checksum, old(device.sectors), j), device.Since(|old(device.log)|), status == Ok)
      ensures status == Ok ==> source' == j.src1.inode && destination' == j.dst1.inode
      ensures device.reliable && Full(geometry, checksum, old(device.sectors), j, false, false) ==>
        FlagsAllowed(source.flags, features) && FlagsAllowed(destination.flags, features) ==>
        EmptyAtZero(source) ==> status == Ok
    {
      hide Apply, Steps, DisjointExtents, PublishOp, MayPublish, Full, UpdateSpec;
      var g := geometry;
      ghost var d0, n, crc := device.sectors, |device.log|, checksum;
      ghost var first := PublishOp(g, crc, d0, j.dst1.inode);
      ghost var second := PublishOp(g, crc, ApplyOp(d0, first), j.src1.inode);
      assert [first] + [second] == [first, second];
      PublishFacts(g, crc, d0, j);
      source' := source;
      status, destination' := UpdateFlagged(Fs(), features, destination);
      ghost var b, n1, d1 := device.Since(n), |device.log|, device.sectors;
      UpdateRan(g, crc, d0, destination, b, if status == Ok then Success(destination') else Failure(status));
      if status != Ok {
        RanPart([first], b, [second]);
        return;
      }
      StepsApply(d0, [first]);
      ApplyTwo(d0, first);
      status, source' := UpdateFlagged(Fs(), features, source);
      UpdateRan(g, crc, d1, source, device.Since(n1), if status == Ok then Success(source') else Failure(status));
      Sequence(d0, device.log, n, n1);
      assert device.log[n..n1] == b;
      RanMore([first], b, [second], device.Since(n1), status == Ok);
    }

    /** Announces the move, publishes both parents and withdraws the announcement. */
    method Publish(move: Intent, source: Inode, destination: Inode, ghost j: Job)
      returns (status: Status, published: bool, source': Inode, destination': Inode)
      requires Ready() && mounted && JobShape(geometry, j) && move == IntentOf(j)
      requires j.generation == generation && j.features == features
      requires source == j.src1.inode.(revision := j.src0.inode.revision)
      requires destination == j.dst1.inode.(revision := j.dst0.inode.revision)
      modifies this`mounted, device
      ensures old(device.log) <= device.log
      ensures device.sectors == Apply(old(device.sectors), device.Since(|old(device.log)|))
      ensures Ran(MovePlan(geometry, checksum, old(device.sectors), j), device.Since(|old(device.log)|), status == Ok)
      ensures mounted <==> status == Ok
      ensures published ==>
        source' == j.src1.inode && destination' == j.dst1.inode && |device.log| >= |old(device.log)| + 8
      ensures status == Ok ==> published
      ensures device.reliable && Full(geometry, checksum, old(device.sectors), j, false, false) ==>
        FlagsAllowed(source.flags, features) && FlagsAllowed(destination.flags, features) ==>
        EmptyAtZero(source) ==> status == Ok
    {
      hide Apply, PairPlan, Steps, JobShape, Full, MovePlan, ParentPlan;
      var g := geometry;
      ghost var d0, n, crc := device.sectors, |device.log|, checksum;
      ghost var a, b, c: seq<Op> := [], [], [];
      published, source', destination' := false, source, destination;
      AnnouncedFull(g, crc, d0, j);
      StepsApply(d0, PairPlan(crc, Announcement(g, j)));
      status := WritePair(Fs(), Super(g, generation, features, Some(move)));
      a := device.Since(n);
      ghost var n1 := |device.log|;
      if status != Ok {
        mounted := false;
        MoveRan(g, crc, d0, j, a, [], [], false, false, false);
        assert a + [] + [] == a;
        return;
      }
      status, source', destination' := PublishParents(source, destination, j);
      b := device.Since(n1);
      ghost var n2 := |device.log|;
      Sequence(d0, device.log, n, n1);
      assert device.log[n..n1] == a;
      if status != Ok {
        mounted := false;
        MoveRan(g, crc, d0, j, a, b, [], true, false, false);
        assert a + b + [] == a + b;
        return;
      }
      published := true;
      status := WritePair(Fs(), Super(g, generation, features, None));
      c := device.Since(n2);
      Sequence(d0, device.log, n, n2);
      assert device.log[n..n2] == a + b;
      MoveRan(g, crc, d0, j, a, b, c, true, true, status == Ok);
      if status != Ok {
        mounted := false;
      }
    }

    /** The plan of the move, then the release of the extents it has made obsolete. */
    method Commit(source: Inode, destination: Inode, source1: Inode, destination1: Inode, child: Inode, ghost j: Job)
      returns (status: Status, source': Inode, destination': Inode, ghost q: seq<Op>, ghost rel: seq<Op>)
      requires Ready() && mounted && JobShape(geometry, j) && j.generation == generation && j.features == features
      requires source == j.src0.inode && destination == j.dst0.inode
      requires source1 == j.src1.inode.(revision := source.revision)
      requires destination1 == j.dst1.inode.(revision := destination.revision)
      requires child.id == j.childId && child.generation == j.childGeneration && child.kind == j.childKind
      modifies this`mounted, device
      ensures old(device.log) <= device.log
      ensures device.sectors == Apply(old(device.sectors), device.Since(|old(device.log)|))
      ensures device.Since(|old(device.log)|) == q + rel
      ensures Ran(MovePlan(geometry, checksum, old(device.sectors), j), q, rel != [] || status == Ok)
      ensures FreeOps(geometry, Apply(old(device.sectors), q), rel, OldExtents(IntentOf(j)))
      ensures status == Ok ==>
        var d := Apply(old(device.sectors), q);
        Settled(rel) && GivenBack(geometry, d, Apply(d, rel), OldExtents(IntentOf(j)))
      ensures Full(geometry, checksum, old(device.sectors), j, false, false) ==>
        Returned(geometry, checksum, device.sectors, j, status, source', destination')
      ensures device.reliable && Full(geometry, checksum, old(device.sectors), j, false, false) ==>
        FlagsAllowed(source.flags, features) && FlagsAllowed(destination.flags, features) ==>
        EmptyAtZero(source1) ==> status == Ok
    {
      hide Apply, Steps, JobShape, Full, MovePlan, FreeOps, Releasable, FlagsAllowed, At, GivenBack;
      SameFlags(geometry, j);
      ghost var d0, n := device.sectors, |device.log|;
      rel := [];
      var move := Intent(
        child.id, child.generation, child.kind, ParentOf(source, source1), ParentOf(destination, destination1));
      var published: bool;
      status, published, source', destination' := Publish(move, source1, destination1, j);
      q := device.Since(n);
      ghost var n1 := |device.log|;
      if !published {
        source', destination' := source, destination;
      }
      if status != Ok {
        assert q + rel == q;
        NothingFreedYet(geometry, Apply(d0, q), j);
        PublishedAt(geometry, checksum, d0, j, q, rel, status);
        return;
      }
      PublishedReleases(geometry, checksum, d0, j);
      StepsApply(d0, MovePlan(geometry, checksum, d0, j));
      status := ReleasePair(
        Fs(), source.extentStart, source.extentBlocks, destination.extentStart, destination.extentBlocks);
      Sequence(d0, device.log, n, n1);
      assert device.log[n..n1] == q;
      rel := device.Since(n1);
      PublishedAt(geometry, checksum, d0, j, q, rel, status);
    }

    /** Preparation, plan and release, on a volume that has the move feature. */
    method PrepareAndCommit(source: Inode, index: U64, destination: Inode, entry: Entry, child: Inode, ghost k: Job)
      returns (status: Status, source': Inode, destination': Inode, ghost j: Job, ghost attempted: bool,
               ghost p: seq<Op>, ghost q: seq<Op>, ghost rel: seq<Op>)
      requires Ready() && mounted && JobBegun(geometry, checksum, device.sectors, k)
      requires FlagsAllowed(source.flags, features) && FlagsAllowed(destination.flags, features)
      requires k.generation == generation && k.features == features
      requires source == k.src0.inode && destination == k.dst0.inode && index < |k.src0.list|
      requires child.id == k.childId && child.generation == k.childGeneration && child.kind == k.childKind
      requires EntryAcceptable(entry)
      requires entry.inodeId == child.id && entry.generation == child.generation && entry.kind == child.kind
      modifies this`mounted, device
      ensures old(device.log) <= device.log
      ensures device.sectors == Apply(old(device.sectors), device.Since(|old(device.log)|))
      ensures device.Since(|old(device.log)|) == p + (q + rel)
      ensures GrowOps(geometry, old(device.sectors), p)
      ensures j == k.(src1 := j.src1, dst1 := j.dst1)
      ensures !attempted ==>
        && status != Ok && source' == source && destination' == destination && q == [] && rel == []
        && (status !in {BlockDeviceError, ArithmeticOverflow} ==>
              SameBits(geometry, old(device.sectors), device.sectors))
      ensures attempted ==>
        && Settled(p) && JobReady(geometry, checksum, old(device.sectors), Apply(old(device.sectors), p), j)
        && Ran(MovePlan(geometry, checksum, Apply(old(device.sectors), p), j), q, rel != [] || status == Ok)
        && FreeOps(geometry, Apply(Apply(old(device.sectors), p), q), rel, OldExtents(IntentOf(j)))
        && (status == Ok ==>
              var d := Apply(Apply(old(device.sectors), p), q);
              Settled(rel) && GivenBack(geometry, d, Apply(d, rel), OldExtents(IntentOf(j))))
        && Returned(geometry, checksum, device.sectors, j, status, source', destination')
        && j.src1.list == WithoutEntry(k.src0.list, index) && j.dst1.list == k.dst0.list + [entry]
      ensures device.reliable && RoomToMove(geometry, old(device.sectors), source, destination) ==> status == Ok
    {
      hide Apply, JobBegun, RoomForBoth, GrowOps, Full, JobShape, EntryAcceptable, InodeAt, WithoutEntry,
           MovePlan, FreeOp, Steps, FreeOps, OnlyGrew, IntentOf, GivenBack, SameBits;
      var g := geometry;
      ghost var d0, n, crc := device.sectors, |device.log|, checksum;
      attempted, q, rel := false, [], [];
      BegunChild(g, crc, d0, k, entry);
      var source1: Inode, destination1: Inode;
      status, source1, destination1, j := PrepareBoth(Fs(), source, index, destination, entry, k);
      source', destination' := source, destination;
      p := device.Since(n);
      ghost var n1 := |device.log|;
      assert p + ([] + []) == p;
      if status != Ok {
        return;
      }
      attempted := true;
      status, source', destination', q, rel := Commit(source, destination, source1, destination1, child, j);
      Sequence(d0, device.log, n, n1);
      assert device.log[n..n1] == p;
    }

    /** The volume has the move feature or can get it, and there is room for both new versions. */
    ghost predicate Fits(d: Disk, generation: U64, features: U64, source: Inode, destination: Inode) {
      (features % 2 == 1 || generation < UINT64_MAX) && RoomToMove(geometry, d, source, destination)
    }

    /** The part of a move that writes: feature upgrade, preparation, plan and release. */
    method Execute(source: Inode, index: U64, destination: Inode, entry: Entry, child: Inode, ghost k: Job)
      returns (status: Status, source': Inode, destination': Inode, ghost j: Job, ghost attempted: bool)
      requires Ready() && mounted && generation != 0 && features <= 3
      requires JobBegun(geometry, checksum, device.sectors, k) && k.features == features
      requires source == k.src0.inode && destination == k.dst0.inode && index < |k.src0.list|
      requires child.id == k.childId && child.generation == k.childGeneration && child.kind == k.childKind
      requires EntryAcceptable(entry)
      requires entry.inodeId == child.id && entry.generation == child.generation && entry.kind == child.kind
      modifies this, device
      ensures old(device.log) <= device.log
      ensures device.sectors == Apply(old(device.sectors), device.Since(|old(device.log)|))
      ensures !attempted ==>
        && status != Ok && source' == source && destination' == destination
        && (status !in {BlockDeviceError, ArithmeticOverflow} ==>
              SameBits(geometry, old(device.sectors), device.sectors))
        && CutUntouched(
             geometry, checksum, old(device.sectors), device.Since(|old(device.log)|), source.id, destination.id)
      ensures attempted ==>
        && AttemptRan(geometry, checksum, old(device.sectors), Super(geometry, old(generation), old(features), None), j,
                      device.Since(|old(device.log)|), status == Ok)
        && JobBegun(geometry, checksum, old(device.sectors), j)
        && j.generation != 0 && j.features <= 3 && j.features % 2 == 1
        && j == k.(generation := j.generation, features := j.features, src1 := j.src1, dst1 := j.dst1)
        && Returned(geometry, checksum, device.sectors, j, status, source', destination')
        && j.src1.list == WithoutEntry(k.src0.list, index) && j.dst1.list == k.dst0.list + [entry]
      ensures device.reliable && Fits(old(device.sectors), old(generation), old(features), source, destination) ==>
        status == Ok
    {
      hide Apply, JobBegun, RoomToMove, AttemptRan, CutUntouched, GrowOps, Full, JobShape, EntryAcceptable, InodeAt,
           WithoutEntry, MovePlan, Steps, PairPlan, FreeOps, JobReady, IntentOf, FlagsAllowed, Returned, FreshExtent,
           GivenBack, SameBits;
      var g := geometry;
      ghost var d0, n, crc, start := device.sectors, |device.log|, checksum, Super(g, generation, features, None);
      source', destination', attempted := source, destination, false;
      ghost var upgraded := Upgraded(start);
      ghost var k1 := k.(generation := upgraded.generation, features := upgraded.features);
      j := k1;
      BegunRenamed(g, crc, d0, k, k1);
      status := EnsureMoveFeature();
      ghost var f, n1, d1 := device.Since(n), |device.log|, device.sectors;
      if status != Ok {
        UpgradeCut(g, crc, d0, k1, f);
        return;
      }
      assert k1.generation == generation && k1.features == features;
      hide Upgraded, Precedes, Ran;
      BegunFeature(g, crc, d0, start, k1, f);
      BegunFacts(g, crc, d1, k1);
      assert FlagsAllowed(source.flags, features) && FlagsAllowed(destination.flags, features);
      StillFits(g, crc, d0, d1, k1, f, source, destination);
      ghost var fits := device.reliable && Fits(d0, start.generation, start.features, source, destination);
      ghost var p, q, rel;
      status, source', destination', j, attempted, p, q, rel :=
        PrepareAndCommit(source, index, destination, entry, child, k1);
      assert fits ==> status == Ok;
      Sequence(d0, device.log, n, n1);
      assert device.log[n..n1] == f;
      Executed(g, crc, d0, start, k1, j, f, p, q, rel, attempted, status == Ok);
      UpgradedBits(g, crc, d0, d1, device.sectors, k1, f);
    }

    /** Moves a named entry to another directory under a new name. */
    method DirectoryMove(
      r: Request) returns (status: Status, source': Inode, destination': Inode, ghost j: Job, ghost stage: Stage)
      requires Ready() && generation != 0 && features <= 3 && r.source.id != r.destination.id
      requires AllValidated(geometry, checksum, device.sectors, features)
      modifies this, device
      ensures old(device.log) <= device.log
      ensures device.sectors == Apply(old(device.sectors), device.Since(|old(device.log)|))
      // Refused: nothing was written, because a check failed or the device did.
      ensures stage == Refused ==>
        && status != Ok && device.log == old(device.log) && source' == r.source && destination' == r.destination
      ensures stage != Refused ==> old(mounted) && MayMove(geometry, checksum, old(device.sectors), r)
      ensures device.reliable && old(mounted) ==>
        MayMove(geometry, checksum, old(device.sectors), r) ==> stage != Refused
      // Abandoned before the announcement: both directories are as they were, whatever survives a cut.
      ensures stage == Abandoned ==>
        && status != Ok && source' == r.source && destination' == r.destination
        && (status !in {BlockDeviceError, ArithmeticOverflow} ==>
              SameBits(geometry, old(device.sectors), device.sectors))
        && CutUntouched(
             geometry, checksum, old(device.sectors), device.Since(|old(device.log)|), r.source.id, r.destination.id)
      // Attempted: every cut can be settled, and success is durable.
      ensures stage == Attempted ==>
        && JobBegun(geometry, checksum, old(device.sectors), j)
        && j.generation != 0 && j.features <= 3 && j.features % 2 == 1
        && Returned(geometry, checksum, device.sectors, j, status, source', destination')
        && Describes(geometry, checksum, old(device.sectors), j, r)
        && AttemptRan(geometry, checksum, old(device.sectors), Super(geometry, old(generation), old(features), None), j,
                      device.Since(|old(device.log)|), status == Ok)
        && (old(QuietCopies(checksum, device.sectors, Super(geometry, generation, features, None))) ==>
              CutSettles(geometry, checksum, old(device.sectors), device.Since(|old(device.log)|), j))
      ensures status == Ok ==>
        && stage == Attempted && Settled(device.Since(|old(device.log)|)) && |device.sectors| == |old(device.sectors)|
        && View(geometry, checksum, device.sectors, r.source.id) == Success(j.src1.list)
        && View(geometry, checksum, device.sectors, r.destination.id) == Success(j.dst1.list)
        && Exchanged(geometry, old(device.sectors), device.sectors, j)
      ensures device.reliable && old(mounted) && MayMove(geometry, checksum, old(device.sectors), r) ==>
        Fits(old(device.sectors), old(generation), old(features), r.source, r.destination) ==> status == Ok
      // The refusals a caller can tell apart.
      ensures stage == Refused && status == NotFound ==>
        && View(geometry, checksum, old(device.sectors), r.source.id).Success?
        && !Named(View(geometry, checksum, old(device.sectors), r.source.id).value, r.sourceName)
      ensures stage == Refused && status == WouldCreateCycle ==>
        MovesIntoItself(geometry, checksum, old(device.sectors), r)
    {
      hide Apply, InodeAt, View, AttemptRan, CutUntouched, QuietCopies, CutSettles, Describes, MayMove, Fits,
           AllValidated, JobBegun, LastPosition, WithoutEntry, EntryAcceptable, MovedEntry, SameBits, Exchanged;
      ghost var d0, n, crc := device.sectors, |device.log|, checksum;
      ghost var start := Super(geometry, generation, features, None);
      ApplyNothing(d0);
      assert device.Since(n) == [];
      stage, source', destination' := Refused, r.source, r.destination;
      j := EmptyJob(generation, features, r);
      var index: U64, moved: Entry, child: Inode;
      status, index, moved, child := CheckMove(Fs(), r);
      if status != Ok {
        return;
      }
      ghost var k := BeginJob(geometry, crc, d0, r, generation, features);
      var entry := Entry(r.destinationName, child.id, child.generation, child.kind);
      assert EntryAcceptable(entry) by { MovedAcceptable(geometry, crc, d0, r, child); }
      ghost var attempted: bool;
      status, source', destination', j, attempted := Execute(r.source, index, r.destination, entry, child, k);
      stage := if attempted then Attempted else Abandoned;
      if attempted {
        JobDescribes(geometry, crc, d0, k, j, r);
        MoveOutcome(geometry, crc, d0, start, j, r, device.Since(n), status == Ok);
        if status == Ok {
          AttemptBlocks(geometry, crc, d0, start, j, device.Since(n));
        }
      }
    }
  }
}
