/**
 The read-only VFS adapter: path resolution over directories and open-file
 handles made of a slot number and the slot's generation.
 */
module KuroVfs {
  import opened Bytes
  import opened KuroDisk
  import opened KuroBitmap
  import opened KuroAlloc
  import opened KuroInode
  import opened KuroDirectory

  datatype VfsStatus =
    | VOk | VBackendFailure | VInvalidArgument | VArithmeticOverflow | VCorruptFilesystem | VStaleHandle
    | VNotFound | VAlreadyExists | VNotDirectory | VIsDirectory | VNameTooLong | VNoSpace | VIoError
    | VPathTooLong | VInvalidPath | VInvalidHandle | VOpenFileTableFull

  function MapStatus(s: Status): (v: VfsStatus)
    ensures v == VOk <==> s == Ok
    ensures v == VNotFound <==> s == NotFound
    ensures v != VIsDirectory
  {
    match s
    case Ok => VOk
    case NotMounted => VBackendFailure
    case InvalidArgument => VInvalidArgument
    case ArithmeticOverflow => VArithmeticOverflow
    case InvalidSuperblock => VCorruptFilesystem
    case CorruptSuperblock => VCorruptFilesystem
    case InvalidGeometry => VCorruptFilesystem
    case InvalidRootInode => VCorruptFilesystem
    case InvalidInodeMetadata => VCorruptFilesystem
    case InvalidExtent => VCorruptFilesystem
    case OverlappingExtents => VCorruptFilesystem
    case CorruptDirectory => VCorruptFilesystem
    case StaleInode => VStaleHandle
    case NotFound => VNotFound
    case AlreadyExists => VAlreadyExists
    case NotDirectory => VNotDirectory
    case WouldCreateCycle => VInvalidArgument
    case NameTooLong => VNameTooLong
    case NoSpace => VNoSpace
    case BlockDeviceError => VIoError
  }

  const ROOT_INODE: U64 := 1
  const MAX_OPEN_FILES: nat := 64

  // ----- Paths -----

  /** "/" followed by each component in turn, separated by "/". */
  function Join(components: seq<Name>): (r: seq<Byte>)
    ensures |components| > 0 ==> |r| > 0 && r[0] == SLASH
  {
    if components == [] then [] else Join(components[..|components| - 1]) + [SLASH] + components[|components| - 1]
  }

  /** From the root, every component names an entry of the directory reached so far, and the last child is inode. */
  ghost predicate Resolves(g: Geometry, crc: Checksum, d: Disk, components: seq<Name>, inode: Inode)
    requires g.Valid(|d|)
    decreases |components|
  {
    if components == [] then InodeAt(g, crc, d, ROOT_INODE) == Success(inode)
    else
      var last := components[|components| - 1];
      exists parent: Inode ::
        && Resolves(g, crc, d, components[..|components| - 1], parent)
        && StepsTo(g, crc, d, parent, last, inode)
  }

  ghost predicate StepsTo(g: Geometry, crc: Checksum, d: Disk, parent: Inode, name: Name, child: Inode)
    requires g.Valid(|d|)
  {
    && parent.kind == DIRECTORY && NameStatus(name) == Ok
    && exists index: U64, e: Entry ::
         && FirstNamed(g, crc, d, parent, name, index, e)
         && InodeAt(g, crc, d, e.inodeId) == Success(child)
         && ChildMatches(Success(child), e)
  }

  lemma ResolvesStep(
    g: Geometry, crc: Checksum, d: Disk, components: seq<Name>, parent: Inode, name: Name, child: Inode)
    requires g.Valid(|d|)
    requires Resolves(g, crc, d, components, parent) && StepsTo(g, crc, d, parent, name, child)
    ensures Resolves(g, crc, d, components + [name], child)
  {
    hide InodeAt, StepsTo;
    var extended := components + [name];
    assert extended[..|extended| - 1] == components && extended[|extended| - 1] == name;
  }

  predicate IsPath(path: seq<Byte>, components: seq<Name>) {
    if components == [] then path == [SLASH] else path == Join(components)
  }

  /** The path names the inode, by its only split into components. */
  ghost predicate PathNames(g: Geometry, crc: Checksum, d: Disk, path: Name, components: seq<Name>, inode: Inode)
    requires g.Valid(|d|)
  {
    IsPath(path, components) && Resolves(g, crc, d, components, inode)
  }

  lemma StepUnique(g: Geometry, crc: Checksum, d: Disk, parent: Inode, name: Name, a: Inode, b: Inode)
    requires g.Valid(|d|) && StepsTo(g, crc, d, parent, name, a) && StepsTo(g, crc, d, parent, name, b)
    ensures a == b
  {
    hide InodeAt, FirstNamed, ChildMatches;
    var i: U64, e: Entry :| FirstNamed(g, crc, d, parent, name, i, e) && InodeAt(g, crc, d, e.inodeId) == Success(a);
    var j: U64, f: Entry :| FirstNamed(g, crc, d, parent, name, j, f) && InodeAt(g, crc, d, f.inodeId) == Success(b);
    FirstNamedUnique(g, crc, d, parent, name, i, e, j, f);
  }

  lemma {:induction false} ResolvesUnique(
    g: Geometry, crc: Checksum, d: Disk, components: seq<Name>, a: Inode, b: Inode)
    requires g.Valid(|d|) && Resolves(g, crc, d, components, a) && Resolves(g, crc, d, components, b)
    ensures a == b
    decreases |components|
  {
    hide InodeAt, StepsTo;
    if components != [] {
      var front, last := components[..|components| - 1], components[|components| - 1];
      var p: Inode :| Resolves(g, crc, d, front, p) && StepsTo(g, crc, d, p, last, a);
      var q: Inode :| Resolves(g, crc, d, front, q) && StepsTo(g, crc, d, q, last, b);
      ResolvesUnique(g, crc, d, front, p, q);
      StepUnique(g, crc, d, p, last, a, b);
    }
  }

  /** Every shorter part of a resolved path resolves, and the next component steps on from there. */
  lemma {:induction false} ResolvesPart(
    g: Geometry, crc: Checksum, d: Disk, components: seq<Name>, inode: Inode, k: nat)
    returns (parent: Inode, child: Inode)
    requires g.Valid(|d|) && Resolves(g, crc, d, components, inode) && k < |components|
    ensures Resolves(g, crc, d, components[..k], parent) && StepsTo(g, crc, d, parent, components[k], child)
    decreases |components|
  {
    hide InodeAt, StepsTo;
    var front, last := components[..|components| - 1], components[|components| - 1];
    var p: Inode :| Resolves(g, crc, d, front, p) && StepsTo(g, crc, d, p, last, inode);
    if k == |components| - 1 {
      parent, child := p, inode;
    } else {
      parent, child := ResolvesPart(g, crc, d, front, p, k);
      assert front[..k] == components[..k];
    }
  }

  /** The position of the next separator, or the end. */
  function ComponentEnd(path: Name, begin: nat): (end: nat)
    requires begin <= |path|
    ensures begin <= end <= |path| && (end < |path| ==> path[end] == SLASH)
    ensures forall i :: begin <= i < end ==> path[i] != SLASH
    decreases |path| - begin
  {
    if begin == |path| || path[begin] == SLASH then begin else ComponentEnd(path, begin + 1)
  }

  /** The text from begin up to the next separator. */
  function Component(path: Name, begin: nat): Name
    requires begin <= |path|
  {
    path[begin..ComponentEnd(path, begin)]
  }

  lemma {:induction false} JoinPart(components: seq<Name>, k: nat)
    requires k < |components|
    ensures
      var head := Join(components[..k]) + [SLASH] + components[k];
      && head <= Join(components)
      && (if k + 1 == |components| then head == Join(components)
          else |head| < |Join(components)| && Join(components)[|head|] == SLASH)
    decreases |components|
  {
    var n := |components| - 1;
    if k < n {
      var front := components[..n];
      JoinPart(front, k);
      assert front[..k] == components[..k];
    }
  }

  /** A name without separators that the text continues with is the text up to the next separator. */
  lemma TextNext(path: Name, begin: nat, name: Name)
    requires begin + |name| <= |path| && path[begin..begin + |name|] == name
    requires forall i :: 0 <= i < |name| ==> name[i] != SLASH
    requires begin + |name| < |path| ==> path[begin + |name|] == SLASH
    ensures ComponentEnd(path, begin) == begin + |name|
  {
    forall i | begin <= i < begin + |name|
      ensures path[i] != SLASH
    {
      assert path[i] == name[i - begin];
    }
  }

  lemma StepName(g: Geometry, crc: Checksum, d: Disk, parent: Inode, name: Name, child: Inode)
    requires g.Valid(|d|) && StepsTo(g, crc, d, parent, name, child)
    ensures name != [] && forall i :: 0 <= i < |name| ==> name[i] != SLASH
  {
    assert !HasSlash(name);
  }

  /** Once a prefix of the components is read, the next one is the text up to the next separator. */
  lemma NextComponent(g: Geometry, crc: Checksum, d: Disk, path: Name, components: seq<Name>, k: nat, inode: Inode)
    requires g.Valid(|d|) && components != [] && PathNames(g, crc, d, path, components, inode) && k < |components|
    ensures
      var begin := |Join(components[..k])| + 1;
      && begin < |path|
      && Component(path, begin) == components[k]
      && (ComponentEnd(path, begin) == |path| <==> k + 1 == |components|)
  {
    hide Resolves, StepsTo, Join, ComponentEnd;
    var parent, child := ResolvesPart(g, crc, d, components, inode, k);
    StepName(g, crc, d, parent, components[k], child);
    JoinNext(path, components, k);
  }

  lemma JoinNext(path: Name, components: seq<Name>, k: nat)
    requires k < |components| && path == Join(components) && components[k] != []
    requires forall i :: 0 <= i < |components[k]| ==> components[k][i] != SLASH
    ensures
      var begin := |Join(components[..k])| + 1;
      && begin < |path|
      && Component(path, begin) == components[k]
      && (ComponentEnd(path, begin) == |path| <==> k + 1 == |components|)
  {
    hide Join, ComponentEnd;
    JoinPart(components, k);
    var name, front := components[k], Join(components[..k]);
    var begin := |front| + 1;
    assert (front + [SLASH] + name)[begin..] == name;
    TextNext(path, begin, name);
  }

  /** A device failed, or a directory could not be trusted. */
  predicate Broken(status: VfsStatus) { status == VIoError || status == VCorruptFilesystem }

  /** Looks the name up and reads the child it names. */
  method FollowName(fs: FileSystem, current: Inode, name: Name) returns (status: VfsStatus, child: Inode)
    requires fs.Ready() && fs.mounted && current.kind == DIRECTORY
    ensures status == VOk ==> StepsTo(fs.geometry, fs.checksum, fs.device.sectors, current, name, child)
    ensures status != VOk && (fs.device.reliable || !Broken(status)) ==>
      forall c: Inode :: !StepsTo(fs.geometry, fs.checksum, fs.device.sectors, current, name, c)
  {
    hide InodeAt, FirstNamed;
    child := current;
    var entry: Entry;
    var s: Status;
    s, entry := DirectoryLookup(fs, current, name);
    if s != Ok {
      return MapStatus(s), child;
    }
    var found: Inode;
    s, found := ReadInode(fs, entry.inodeId);
    ChildReads(fs.geometry, fs.checksum, fs.device.sectors, current, name);
    if s != Ok {
      return MapStatus(s), child;
    }
    if found.generation != entry.generation || found.kind != entry.kind {
      return VCorruptFilesystem, child;
    }
    return VOk, found;
  }

  /** Reads the component at position and follows it. */
  method ResolveComponent(fs: FileSystem, path: Name, begin: nat, current: Inode)
    returns (status: VfsStatus, position: nat, child: Inode)
    requires fs.Ready() && fs.mounted && begin < |path|
    ensures status == VOk ==> begin < position == ComponentEnd(path, begin)
    ensures status == VOk ==>
      StepsTo(fs.geometry, fs.checksum, fs.device.sectors, current, Component(path, begin), child)
    ensures status != VOk && (fs.device.reliable || !Broken(status)) ==> forall c: Inode ::
      !StepsTo(fs.geometry, fs.checksum, fs.device.sectors, current, Component(path, begin), c)
  {
    hide FirstNamed;
    position, child := begin, current;
    if current.kind != DIRECTORY {
      return VNotDirectory, position, child;
    }
    while position < |path| && path[position] != SLASH
      invariant begin <= position <= |path| && ComponentEnd(path, position) == ComponentEnd(path, begin)
    {
      position := position + 1;
    }
    if position == begin {
      return VInvalidPath, position, child;
    }
    if position - begin > 63 {
      return VNameTooLong, position, child;
    }
    status, child := FollowName(fs, current, path[begin..position]);
  }

  lemma ChildReads(g: Geometry, crc: Checksum, d: Disk, dir: Inode, name: Name)
    requires g.Valid(|d|)
    ensures forall index: U64, e: Entry :: FirstNamed(g, crc, d, dir, name, index, e) ==>
              ChildMatches(InodeAt(g, crc, d, e.inodeId), e)
  {
    hide InodeAt, DataAt, DecodeRecord;
  }

  /** Every split of the path that resolves starts with the components read so far. */
  ghost predicate OnTheWay(g: Geometry, crc: Checksum, d: Disk, path: Name, components: seq<Name>)
    requires g.Valid(|d|)
  {
    forall cs: seq<Name>, t: Inode :: PathNames(g, crc, d, path, cs, t) ==> components <= cs
  }

  /** The path names no inode at all. */
  ghost predicate NamesNothing(g: Geometry, crc: Checksum, d: Disk, path: Name)
    requires g.Valid(|d|)
  {
    forall cs: seq<Name>, t: Inode :: !PathNames(g, crc, d, path, cs, t)
  }

  lemma WayGoesOn(g: Geometry, crc: Checksum, d: Disk, path: Name, components: seq<Name>, current: Inode,
                  cs: seq<Name>, t: Inode)
    requires g.Valid(|d|) && OnTheWay(g, crc, d, path, components) && Resolves(g, crc, d, components, current)
    requires PathNames(g, crc, d, path, cs, t)
    requires |path| > |Join(components)| + 1
    ensures
      var name := Component(path, |Join(components)| + 1);
      components + [name] <= cs && exists c: Inode :: StepsTo(g, crc, d, current, name, c)
  {
    hide StepsTo, Resolves, Join, ComponentEnd;
    var k := |components|;
    assert components <= cs;
    assert k == |cs| ==> cs == components;
    assert cs[..k] == components;
    NextComponent(g, crc, d, path, cs, k, t);
    var parent, child := ResolvesPart(g, crc, d, cs, t, k);
    ResolvesUnique(g, crc, d, components, current, parent);
    assert components + [cs[k]] <= cs;
  }

  lemma WayEnds(
    g: Geometry, crc: Checksum, d: Disk, path: Name, components: seq<Name>, current: Inode, cs: seq<Name>, t: Inode)
    requires g.Valid(|d|) && OnTheWay(g, crc, d, path, components) && PathNames(g, crc, d, path, components, current)
    requires PathNames(g, crc, d, path, cs, t)
    ensures t == current
  {
    hide InodeAt, StepsTo, Resolves;
    if |components| < |cs| {
      JoinPart(cs, |components|);
      assert cs[..|components|] == components;
      if components == [] {
        NextComponent(g, crc, d, path, cs, 0, t);
      }
    }
    assert cs == components;
    ResolvesUnique(g, crc, d, components, current, t);
  }

  /** A name with a trailing separator, or without a leading one, is no path. */
  lemma BadShape(g: Geometry, crc: Checksum, d: Disk, path: Name)
    requires g.Valid(|d|)
    requires |path| == 0 || path[0] != SLASH || (|path| > 1 && path[|path| - 1] == SLASH)
    ensures NamesNothing(g, crc, d, path)
  {
    hide InodeAt, StepsTo, Resolves;
    forall cs: seq<Name>, t: Inode
      ensures !PathNames(g, crc, d, path, cs, t)
    {
      if PathNames(g, crc, d, path, cs, t) && cs != [] {
        NextComponent(g, crc, d, path, cs, |cs| - 1, t);
      }
    }
  }

  /** Follows the whole path; the inode found is the only one the path can name. */
  method ResolvePath(fs: FileSystem, path: Name) returns (status: VfsStatus, output: Inode)
    requires fs.Ready() && fs.mounted
    ensures |path| > 255 ==> status == VPathTooLong
    ensures status == VOk ==>
      && (exists cs: seq<Name> :: PathNames(fs.geometry, fs.checksum, fs.device.sectors, path, cs, output))
      && forall cs: seq<Name>, t: Inode :: PathNames(fs.geometry, fs.checksum, fs.device.sectors, path, cs, t) ==>
           t == output
    ensures |path| <= 255 && status != VOk && (fs.device.reliable || !Broken(status)) ==>
      NamesNothing(fs.geometry, fs.checksum, fs.device.sectors, path)
  {
    hide InodeAt, StepsTo, PathNames, NamesNothing, Progress;
    output := Inode(0, 0, 0, 0, 0, 0, 0, 0, 0);
    if |path| > 255 {
      return VPathTooLong, output;
    }
    if |path| == 0 || path[0] != SLASH || (|path| > 1 && path[|path| - 1] == SLASH) {
      BadShape(fs.geometry, fs.checksum, fs.device.sectors, path);
      return VInvalidPath, output;
    }
    var s: Status;
    var current: Inode;
    s, current := ReadInode(fs, ROOT_INODE);
    if s != Ok {
      NoRoot(fs.geometry, fs.checksum, fs.device.sectors, path);
      return MapStatus(s), output;
    }
    RootResolves(fs.geometry, fs.checksum, fs.device.sectors, path, current);
    if |path| == 1 {
      Arrived(fs.geometry, fs.checksum, fs.device.sectors, path, [], current);
      return VOk, current;
    }
    ghost var components: seq<Name> := [];
    var position := 1;
    while position < |path|
      invariant 1 <= position <= |path|
      invariant Progress(fs.geometry, fs.checksum, fs.device.sectors, path, position, components, current)
      decreases |path| - position
    {
      var end;
      var child: Inode;
      status, end, child := ResolveComponent(fs, path, position, current);
      NoWayOn(fs.geometry, fs.checksum, fs.device.sectors, path, position, components, current);
      if status != VOk {
        return;
      }
      StepOn(fs.geometry, fs.checksum, fs.device.sectors, path, position, components, current, child);
      components, current := components + [Component(path, position)], child;
      position := if end < |path| then end + 1 else end;
    }
    Arrived(fs.geometry, fs.checksum, fs.device.sectors, path, components, current);
    return VOk, current;
  }

  /** The loop of the resolution: the text before position is joined from components that lead to current. */
  ghost predicate Progress(
    g: Geometry, crc: Checksum, d: Disk, path: Name, position: nat, components: seq<Name>, current: Inode)
    requires g.Valid(|d|)
  {
    && position <= |path| && Resolves(g, crc, d, components, current) && OnTheWay(g, crc, d, path, components)
    && (position < |path| ==> path[..position] == Join(components) + [SLASH])
    && (position == |path| ==> IsPath(path, components))
  }

  lemma NoWayOn(g: Geometry, crc: Checksum, d: Disk, path: Name, position: nat, components: seq<Name>, current: Inode)
    requires g.Valid(|d|) && position < |path| && Progress(g, crc, d, path, position, components, current)
    ensures (forall c: Inode :: !StepsTo(g, crc, d, current, Component(path, position), c)) ==>
            NamesNothing(g, crc, d, path)
  {
    hide StepsTo, Resolves, NamesNothing, OnTheWay, Join, ComponentEnd;
    assert |path[..position]| == |Join(components)| + 1;
    Onward(g, crc, d, path, components, current);
  }

  lemma StepOn(
    g: Geometry, crc: Checksum, d: Disk, path: Name, position: nat, components: seq<Name>, current: Inode,
    child: Inode)
    requires g.Valid(|d|) && position < |path| && Progress(g, crc, d, path, position, components, current)
    requires path[|path| - 1] != SLASH
    requires StepsTo(g, crc, d, current, Component(path, position), child)
    ensures
      var end := ComponentEnd(path, position);
      Progress(g, crc, d, path, if end < |path| then end + 1 else end, components + [Component(path, position)], child)
  {
    hide StepsTo, Resolves, OnTheWay, Join;
    var end := ComponentEnd(path, position);
    assert |path[..position]| == |Join(components)| + 1;
    Onward(g, crc, d, path, components, current);
    ResolvesStep(g, crc, d, components, current, Component(path, position), child);
    JoinedSoFar(path, position, end, components);
  }

  lemma JoinedSoFar(path: Name, begin: nat, position: nat, components: seq<Name>)
    requires begin <= position <= |path| && path[..begin] == Join(components) + [SLASH]
    ensures
      var extended := components + [path[begin..position]];
      && path[..position] == Join(extended) && (position == |path| ==> path == Join(extended))
      && (position < |path| && path[position] == SLASH ==> path[..position + 1] == Join(extended) + [SLASH])
  {
    hide Join;
    var extended := components + [path[begin..position]];
    JoinMore(components, path[begin..position]);
    assert path[..position] == path[..begin] + path[begin..position];
    if position < |path| {
      assert path[..position + 1] == path[..position] + [path[position]];
    } else {
      assert path[..position] == path;
    }
  }

  lemma JoinMore(components: seq<Name>, name: Name)
    ensures Join(components + [name]) == Join(components) + [SLASH] + name
  {
    var extended := components + [name];
    assert extended[..|extended| - 1] == components;
  }

  lemma NoRoot(g: Geometry, crc: Checksum, d: Disk, path: Name)
    requires g.Valid(|d|)
    ensures InodeAt(g, crc, d, ROOT_INODE).Failure? ==> NamesNothing(g, crc, d, path)
  {
    hide InodeAt, StepsTo;
    forall cs: seq<Name>, t: Inode | PathNames(g, crc, d, path, cs, t)
      ensures InodeAt(g, crc, d, ROOT_INODE).Success?
    {
      if cs != [] {
        var parent, child := ResolvesPart(g, crc, d, cs, t, 0);
      }
    }
  }

  lemma RootResolves(g: Geometry, crc: Checksum, d: Disk, path: Name, root: Inode)
    requires g.Valid(|d|) && InodeAt(g, crc, d, ROOT_INODE) == Success(root) && |path| > 0 && path[0] == SLASH
    ensures Progress(g, crc, d, path, 1, [], root)
  {
    assert path[..1] == [SLASH];
  }

  /** One component further: either every split continues with it, or none can. */
  lemma Onward(g: Geometry, crc: Checksum, d: Disk, path: Name, components: seq<Name>, current: Inode)
    requires g.Valid(|d|) && OnTheWay(g, crc, d, path, components) && Resolves(g, crc, d, components, current)
    requires |path| > |Join(components)| + 1
    ensures
      var name := Component(path, |Join(components)| + 1);
      && OnTheWay(g, crc, d, path, components + [name])
      && ((forall c: Inode :: !StepsTo(g, crc, d, current, name, c)) ==> NamesNothing(g, crc, d, path))
  {
    hide InodeAt, StepsTo, Resolves, PathNames;
    forall cs: seq<Name>, t: Inode | PathNames(g, crc, d, path, cs, t)
      ensures
        var name := Component(path, |Join(components)| + 1);
        components + [name] <= cs && exists c: Inode :: StepsTo(g, crc, d, current, name, c)
    {
      WayGoesOn(g, crc, d, path, components, current, cs, t);
    }
  }

  lemma Arrived(g: Geometry, crc: Checksum, d: Disk, path: Name, components: seq<Name>, current: Inode)
    requires g.Valid(|d|) && Progress(g, crc, d, path, |path|, components, current)
    ensures PathNames(g, crc, d, path, components, current)
    ensures forall cs: seq<Name>, t: Inode :: PathNames(g, crc, d, path, cs, t) ==> t == current
  {
    hide InodeAt, StepsTo, Resolves;
    forall cs: seq<Name>, t: Inode | PathNames(g, crc, d, path, cs, t)
      ensures t == current
    {
      WayEnds(g, crc, d, path, components, current, cs, t);
    }
  }

  // ----- Open-file handles -----

  datatype OpenSlot = OpenSlot(active: bool, generation: U32, inode: Inode)

  /** The two words handed to the VFS. */
  datatype Handle = Handle(slot: nat, generation: nat)

  function EmptyInode(): Inode {
    Inode(0, 0, 0, 0, 0, 0, 0, 0, 0)
  }

  class Adapter {
    const filesystem: FileSystem
    const slots: array<OpenSlot>
    ghost var issued: set<Handle>   // every handle ever returned by Open
    ghost var live: set<Handle>     // those not closed since

    /** The slot tables agree with the history of opens and closes. */
    ghost predicate Valid()
      reads this, slots
    {
      && slots.Length == MAX_OPEN_FILES
      && live <= issued
      && (forall h :: h in issued ==>
            1 <= h.slot <= MAX_OPEN_FILES && 1 <= h.generation <= slots[h.slot - 1].generation)
      && (forall i :: 0 <= i < MAX_OPEN_FILES && slots[i].active ==> Handle(i + 1, slots[i].generation) in live)
      && (forall h :: h in live ==> slots[h.slot - 1].active && slots[h.slot - 1].generation == h.generation)
    }

    constructor (filesystem: FileSystem)
      ensures Valid() && fresh(slots) && this.filesystem == filesystem
      ensures issued == {} && live == {}
      ensures forall i :: 0 <= i < MAX_OPEN_FILES ==> slots[i] == OpenSlot(false, 0, EmptyInode())
    {
      this.filesystem := filesystem;
      slots := new OpenSlot[MAX_OPEN_FILES](_ => OpenSlot(false, 0, EmptyInode()));
      issued, live := {}, {};
    }

    /** A handle resolves exactly while it is open. */
    method ResolveSlot(h: Handle) returns (found: bool, index: nat)
      requires Valid()
      ensures found <==> h in live
      ensures found ==> index < MAX_OPEN_FILES && index == h.slot - 1 && slots[index].active
    {
      index := 0;
      if h.slot == 0 || h.slot - 1 >= MAX_OPEN_FILES {
        return false, 0;
      }
      var slot := slots[h.slot - 1];
      if !slot.active || slot.generation != h.generation {
        return false, 0;
      }
      assert h == Handle(h.slot - 1 + 1, slot.generation);
      return true, h.slot - 1;
    }

    /** Opens an already resolved inode in the first slot that is free and not worn out. */
    method OpenInode(inode: Inode) returns (status: VfsStatus, h: Handle)
      requires Valid()
      modifies this, slots
      ensures Valid()
      ensures status == VOk || status == VOpenFileTableFull
      ensures status == VOk ==>
        && h !in old(issued) && issued == old(issued) + {h} && live == old(live) + {h}
        && slots[h.slot - 1] == OpenSlot(true, h.generation, inode)
        && old(slots[h.slot - 1].generation) < UINT32_MAX
        && forall i :: 0 <= i < MAX_OPEN_FILES && i != h.slot - 1 ==> slots[i] == old(slots[i])
      ensures status == VOpenFileTableFull ==>
        && issued == old(issued) && live == old(live) && slots[..] == old(slots[..])
        && forall i :: 0 <= i < MAX_OPEN_FILES ==> slots[i].active || slots[i].generation == UINT32_MAX
    {
      h := Handle(0, 0);
      var index := 0;
      while index < MAX_OPEN_FILES
        invariant 0 <= index <= MAX_OPEN_FILES
        invariant Valid() && issued == old(issued) && live == old(live) && slots[..] == old(slots[..])
        invariant forall i :: 0 <= i < index ==> slots[i].active || slots[i].generation == UINT32_MAX
      {
        var slot := slots[index];
        if !slot.active && slot.generation != UINT32_MAX {
          var generation := slot.generation + 1;
          h := Handle(index + 1, generation);
          slots[index] := OpenSlot(true, generation, inode);
          issued, live := issued + {h}, live + {h};
          return VOk, h;
        }
        index := index + 1;
      }
      status := VOpenFileTableFull;
    }

    method OpenFile(path: Name) returns (status: VfsStatus, h: Handle)
      requires Valid() && filesystem.Ready()
      modifies this, slots
      ensures Valid()
      ensures !filesystem.mounted ==> status == VInvalidArgument
      ensures status != VOk ==> issued == old(issued) && live == old(live) && slots[..] == old(slots[..])
      ensures status == VOk ==>
        && h !in old(issued) && issued == old(issued) + {h} && live == old(live) + {h}
        && var named := slots[h.slot - 1].inode;
        exists components: seq<Name> ::
          PathNames(filesystem.geometry, filesystem.checksum, filesystem.device.sectors, path, components, named)
      ensures filesystem.mounted && |path| <= 255 && status !in {VOk, VOpenFileTableFull} ==>
        (filesystem.device.reliable || !Broken(status)) ==>
        NamesNothing(filesystem.geometry, filesystem.checksum, filesystem.device.sectors, path)
    {
      hide PathNames, NamesNothing;
      h := Handle(0, 0);
      if !filesystem.mounted {
        return VInvalidArgument, h;
      }
      var inode: Inode;
      status, inode := ResolvePath(filesystem, path);
      if status != VOk {
        return;
      }
      status, h := OpenInode(inode);
    }

    /** Closing an open handle ends it; closing anything else changes nothing. */
    method CloseFile(h: Handle)
      requires Valid()
      modifies this`live, slots
      ensures Valid() && issued == old(issued)
      ensures live == if filesystem.mounted then old(live) - {h} else old(live)
      ensures h !in old(live) || !filesystem.mounted ==> slots[..] == old(slots[..])
      ensures forall i :: 0 <= i < MAX_OPEN_FILES ==> slots[i].generation == old(slots[i].generation)
    {
      if !filesystem.mounted {
        return;
      }
      var found, index := ResolveSlot(h);
      if !found {
        return;
      }
      var generation := slots[index].generation;
      slots[index] := OpenSlot(false, generation, EmptyInode());
      live := live - {h};
    }

    /** Re-reads the inode behind an open slot; the revision may have moved on, the incarnation may not. */
    /** The table still holds the inode, of the same generation and type. */
    ghost predicate Current(was: Inode)
      requires filesystem.Ready()
      reads filesystem.device
    {
      var read := InodeAt(filesystem.geometry, filesystem.checksum, filesystem.device.sectors, was.id);
      filesystem.mounted && read.Success? && read.value.generation == was.generation && read.value.kind == was.kind
    }

    method RefreshSlot(index: nat) returns (status: VfsStatus)
      requires Valid() && filesystem.Ready() && index < MAX_OPEN_FILES && slots[index].active
      modifies slots
      ensures Valid()
      ensures forall i :: 0 <= i < MAX_OPEN_FILES && i != index ==> slots[i] == old(slots[i])
      ensures slots[index].active && slots[index].generation == old(slots[index].generation)
      ensures status == VOk ==>
        var was, now := old(slots[index].inode), slots[index].inode;
        && filesystem.mounted
        && InodeAt(filesystem.geometry, filesystem.checksum, filesystem.device.sectors, was.id) == Success(now)
        && now.generation == was.generation && now.kind == was.kind
      ensures status != VOk ==> slots[index] == old(slots[index])
      ensures status != VIsDirectory
      ensures filesystem.device.reliable && Current(old(slots[index].inode)) ==> status == VOk
    {
      hide InodeAt;
      var was := slots[index].inode;
      var s: Status;
      var current: Inode;
      s, current := ReadInode(filesystem, was.id);
      if s != Ok {
        return MapStatus(s);
      }
      if current.generation != was.generation {
        return VStaleHandle;
      }
      if current.kind != was.kind {
        return VCorruptFilesystem;
      }
      slots[index] := slots[index].(inode := current);
      status := VOk;
    }

    /** Reads through an open handle return the file's contents as they are now, never a stale revision. */
    method ReadFile(h: Handle, offset: U64, size: U64) returns (status: VfsStatus, bytes: seq<Byte>)
      requires Valid() && filesystem.Ready()
      modifies slots
      ensures Valid()
      ensures h !in live ==> status == VInvalidHandle && slots[..] == old(slots[..])
      ensures status == VOk ==>
        var now := slots[h.slot - 1].inode;
        && h in live
        && now.generation == old(slots[h.slot - 1].inode.generation)
        && InodeAt(filesystem.geometry, filesystem.checksum, filesystem.device.sectors, now.id) == Success(now)
        && now.id == old(slots[h.slot - 1].inode.id) && now.kind == REGULAR
        && IsContents(filesystem.device.sectors, now, offset, size, bytes)
      ensures status == VIsDirectory ==> h in live && slots[h.slot - 1].inode.kind == DIRECTORY
      ensures filesystem.device.reliable && h in live && Current(old(slots[h.slot - 1].inode)) ==>
        var now := InodeAt(filesystem.geometry, filesystem.checksum, filesystem.device.sectors,
                           old(slots[h.slot - 1].inode.id)).value;
        && (now.kind == DIRECTORY <==> status == VIsDirectory)
        && (now.kind == REGULAR && InodeExtentStatus(filesystem.geometry, filesystem.device.sectors, now) == Ok ==>
              status == VOk)
    {
      hide InodeAt, InodeExtentStatus, IsContents;
      bytes := [];
      var found, index := ResolveSlot(h);
      if !found || !filesystem.mounted {
        return VInvalidHandle, [];
      }
      status := RefreshSlot(index);
      if status != VOk {
        return;
      }
      var now := slots[index].inode;
      if now.kind == DIRECTORY {
        return VIsDirectory, [];
      }
      var s: Status;
      s, bytes := ReadInodeData(filesystem, now, offset, size);
      status := MapStatus(s);
    }
  }
}
