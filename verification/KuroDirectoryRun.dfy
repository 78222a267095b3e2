/**
 Whole runs on one directory: appends that are refused, fail or succeed,
 interleaved with updates of other inodes, with allocations and with power
 cuts, each of which keeps any of the writes not yet flushed.
 */
module KuroDirectoryRun {
  import opened Bytes
  import opened KuroDisk
  import opened KuroBitmap
  import opened KuroAlloc
  import opened KuroExtent
  import opened KuroInode
  import opened KuroDirectory
  import opened KuroDirFrame
  import opened KuroVersion
  import opened KuroAppend
  import opened KuroAppendOp

  /**
   The contents at power-up and what was accepted since; the entries whose append returned success, those
   whose publication write reached the device, both in order; and how often power was cut.
   */
  datatype State = State(base: Disk, log: seq<Op>, acked: seq<Entry>, reached: seq<Entry>, cuts: nat)
  {
    function Now(): (d: Disk)
      ensures |d| == |base|
    {
      Apply(base, log)
    }
  }

  datatype Event =
    | Append(snapshot: Inode, name: Name, child: U64, prep: seq<Op>, upd: seq<Op>, result: Result<Inode>)
    | UpdateOther(inode: Inode, ops: seq<Op>, result: Result<Inode>)
    | Allocate(ops: seq<Op>, extent: Result<Extent>)
    | PowerCut(survivor: Disk)

  /** What the operations themselves guarantee in state s. */
  ghost predicate Enabled(g: Geometry, crc: Checksum, s: State, id: U64, e: Event)
    requires g.Valid(|s.base|)
  {
    match e
    case Append(snapshot, name, child, prep, upd, result) =>
      && snapshot.id == id
      && AppendSpec(g, crc, s.Now(), snapshot, NewEntry(g, crc, s.Now(), name, child), prep, upd, result)
    case UpdateOther(inode, ops, result) => inode.id != id && UpdateSpec(g, crc, s.Now(), inode, ops, result)
    case Allocate(ops, extent) => AllocateSpec(g, s.Now(), ops, extent)
    case PowerCut(survivor) => CanCrashTo(s.base, s.log, survivor) && |survivor| == |s.base|
  }

  function Next(g: Geometry, crc: Checksum, s: State, e: Event): State
    requires g.Valid(|s.base|)
  {
    match e
    case Append(_, name, child, prep, upd, result) =>
      var entry := NewEntry(g, crc, s.Now(), name, child);
      s.(log := s.log + (prep + upd),
         acked := if result.Success? then s.acked + [entry] else s.acked,
         reached := if upd != [] then s.reached + [entry] else s.reached)
    case UpdateOther(_, ops, _) => s.(log := s.log + ops)
    case Allocate(ops, _) => s.(log := s.log + ops)
    case PowerCut(survivor) => s.(base := survivor, log := [], cuts := s.cuts + 1)
  }

  ghost predicate IsRun(g: Geometry, crc: Checksum, s: State, id: U64, events: seq<Event>)
    decreases |events|
  {
    && g.Valid(|s.base|)
    && (events == []
        || (Enabled(g, crc, s, id, events[0]) && IsRun(g, crc, Next(g, crc, s, events[0]), id, events[1..])))
  }

  ghost function Final(g: Geometry, crc: Checksum, s: State, id: U64, events: seq<Event>): State
    requires IsRun(g, crc, s, id, events)
    decreases |events|
  {
    if events == [] then s else Final(g, crc, Next(g, crc, s, events[0]), id, events[1..])
  }

  // ----- The lists a directory may decode to -----

  /** The elements of a occur in b, in the same order. */
  predicate Within(a: seq<Entry>, b: seq<Entry>) {
    if a == [] then true
    else if b == [] then false
    else (a[|a| - 1] == b[|b| - 1] && Within(a[..|a| - 1], b[..|b| - 1])) || Within(a, b[..|b| - 1])
  }

  lemma WithinGrow(a: seq<Entry>, b: seq<Entry>, e: Entry)
    requires Within(a, b)
    ensures Within(a, b + [e]) && Within(a + [e], b + [e])
  {
    assert (a + [e])[..|a|] == a && (b + [e])[..|b|] == b;
  }

  lemma {:induction false} WithinHas(a: seq<Entry>, b: seq<Entry>, e: Entry)
    requires Within(a, b) && e in a
    ensures e in b
  {
    if e != a[|a| - 1] && a[|a| - 1] == b[|b| - 1] && Within(a[..|a| - 1], b[..|b| - 1]) {
      WithinHas(a[..|a| - 1], b[..|b| - 1], e);
    } else if Within(a, b[..|b| - 1]) {
      WithinHas(a, b[..|b| - 1], e);
    }
  }

  predicate Distinct(entries: seq<Entry>) {
    forall i, j :: 0 <= i < j < |entries| ==>
      entries[i].name != entries[j].name && entries[i].inodeId != entries[j].inodeId
  }

  /**
   The directory held init at the start. list holds that, then every entry whose append succeeded, in order,
   and otherwise only entries whose publication reached the device; no name and no child occurs twice.
   */
  ghost predicate Holds(acked: seq<Entry>, reached: seq<Entry>, init: seq<Entry>, list: seq<Entry>) {
    && init <= list
    && Within(acked, list[|init|..])
    && Within(list[|init|..], reached)
    && Distinct(list)
  }

  lemma HoldsMore(acked: seq<Entry>, reached: seq<Entry>, init: seq<Entry>, list: seq<Entry>, entry: Entry)
    requires Holds(acked, reached, init, list) && Distinct(list + [entry])
    ensures Holds(acked, reached + [entry], init, list)
    ensures Holds(acked, reached + [entry], init, list + [entry])
    ensures Holds(acked + [entry], reached + [entry], init, list + [entry])
  {
    hide Distinct;
    var tail := list[|init|..];
    assert (list + [entry])[|init|..] == tail + [entry];
    WithinGrow(acked, tail, entry);
    WithinGrow(tail, reached, entry);
  }

  // ----- The invariant -----

  /** Every image that can survive holds both versions and shows one. */
  ghost predicate AllFit(g: Geometry, crc: Checksum, base: Disk, log: seq<Op>, o: Version, c: Version)
    requires g.Valid(|base|)
  {
    forall d: Disk :: CanCrashTo(base, log, d) ==> Fits(g, crc, Apply(base, log), d, o, c)
  }

  /** Laid over any image that fits, each of the writes gives one that fits. */
  ghost predicate KeepFit(g: Geometry, crc: Checksum, now: Disk, ops: seq<Op>, o: Version, c: Version)
    requires g.Valid(|now|)
  {
    forall e: Disk, i :: 0 <= i < |ops| && Fits(g, crc, now, e, o, c) ==> Fits(g, crc, now, ApplyOp(e, ops[i]), o, c)
  }

  /** o and c are the versions a power cut could leave; c is the one in the table now. */
  ghost predicate Tracks(
    g: Geometry, crc: Checksum, s: State, id: U64, init: seq<Entry>, o: Version, c: Version)
  {
    && g.Valid(|s.base|)
    && o.inode.id == id && c.inode.id == id && Apart(o.inode, c.inode)
    && InodeAt(g, crc, s.Now(), id) == Success(c.inode)
    && AllFit(g, crc, s.base, s.log, o, c)
    && Holds(s.acked, s.reached, init, o.list) && Holds(s.acked, s.reached, init, c.list)
    && (s.cuts == 0 ==> c.list == init + s.reached)
  }

  ghost predicate Safe(g: Geometry, crc: Checksum, s: State, id: U64, init: seq<Entry>) {
    exists o: Version, c: Version :: Tracks(g, crc, s, id, init, o, c)
  }

  lemma OpsKeepFit(g: Geometry, crc: Checksum, base: Disk, log: seq<Op>, ops: seq<Op>, o: Version, c: Version)
    requires g.Valid(|base|) && AllFit(g, crc, base, log, o, c)
    requires KeepFit(g, crc, Apply(base, log), ops, o, c)
    ensures AllFit(g, crc, base, log + ops, o, c)
  {
    hide Fits, CanCrashTo, Apply;
    var now, now' := Apply(base, log), Apply(base, log + ops);
    NowIsCrashState(base, log);
    NowIsCrashState(base, log + ops);
    var P := (e: Disk) => Fits(g, crc, now, e, o, c);
    CrashInvariantFrom(base, log, ops, P, now');
    forall d: Disk | CanCrashTo(base, log + ops, d) ensures Fits(g, crc, now', d, o, c) {
      CrashInvariantFrom(base, log, ops, P, d);
      FitsRebase(g, crc, now, now', d, o, c);
    }
  }

  /** What every accepted write keeps of each surviving image, the batch keeps. */
  lemma OpsKeepTracks(
    g: Geometry, crc: Checksum, s: State, id: U64, init: seq<Entry>, o: Version, c: Version, ops: seq<Op>)
    requires Tracks(g, crc, s, id, init, o, c) && KeepFit(g, crc, s.Now(), ops, o, c)
    requires InodeAt(g, crc, Apply(s.Now(), ops), id) == Success(c.inode)
    ensures Tracks(g, crc, s.(log := s.log + ops), id, init, o, c)
  {
    hide AllFit, KeepFit, Apply, Holds, InodeAt;
    ApplyConcat(s.base, s.log, ops);
    OpsKeepFit(g, crc, s.base, s.log, ops, o, c);
  }

  lemma FitsRebase(g: Geometry, crc: Checksum, now: Disk, now': Disk, d: Disk, o: Version, c: Version)
    requires g.Valid(|now|) && Fits(g, crc, now, now', o, c) && Fits(g, crc, now, d, o, c)
    ensures Fits(g, crc, now', d, o, c)
  {
    hide Carries, InodeAt, SameChildren;
    ChildrenTrans(g, crc, now, now', d);
  }

  // ----- One event -----

  lemma HarmlessKeepsTracks(
    g: Geometry, crc: Checksum, s: State, id: U64, init: seq<Entry>, o: Version, c: Version, ops: seq<Op>)
    requires Tracks(g, crc, s, id, init, o, c) && HarmlessOps(g, s.Now(), ops, c.inode)
    ensures Tracks(g, crc, s.(log := s.log + ops), id, init, o, c)
  {
    hide Fits, CanCrashTo, Apply, Holds, InodeAt, Harmless;
    var now := s.Now();
    NowIsCrashState(s.base, s.log);
    forall e: Disk, i | 0 <= i < |ops| && Fits(g, crc, now, e, o, c)
      ensures Fits(g, crc, now, ApplyOp(e, ops[i]), o, c)
    {
      HarmlessFits(g, crc, now, e, ops[i], o, c);
    }
    HarmlessNow(g, crc, now, ops, o, c);
    OpsKeepTracks(g, crc, s, id, init, o, c, ops);
  }

  lemma HarmlessNow(g: Geometry, crc: Checksum, now: Disk, ops: seq<Op>, o: Version, c: Version)
    requires g.Valid(|now|) && Fits(g, crc, now, now, o, c) && Apart(o.inode, c.inode)
    requires HarmlessOps(g, now, ops, c.inode)
    ensures InodeAt(g, crc, Apply(now, ops), c.inode.id) == InodeAt(g, crc, now, c.inode.id)
  {
    hide Fits, Apply, InodeAt, Harmless;
    var P := (e: Disk) =>
      Fits(g, crc, now, e, o, c) && |e| == |now| && InodeAt(g, crc, e, c.inode.id) == InodeAt(g, crc, now, c.inode.id);
    forall e: Disk, i | 0 <= i < |ops| && P(e) ensures P(ApplyOp(e, ops[i])) {
      HarmlessFits(g, crc, now, e, ops[i], o, c);
    }
    ApplyInvariant(now, ops, P);
  }

  lemma OtherKeepsTracks(
    g: Geometry, crc: Checksum, s: State, id: U64, init: seq<Entry>, o: Version, c: Version, i: Inode,
    ops: seq<Op>, result: Result<Inode>)
    requires Tracks(g, crc, s, id, init, o, c)
    requires i.id != id && UpdateSpec(g, crc, s.Now(), i, ops, result)
    ensures Tracks(g, crc, s.(log := s.log + ops), id, init, o, c)
  {
    hide Fits, CanCrashTo, Apply, Holds, InodeAt, PublishOp, InodeExtentStatus;
    var now := s.Now();
    NowIsCrashState(s.base, s.log);
    if ops == [] {
      ApplyNothing(now);
    } else {
      var i' := i.(revision := i.revision + 1);
      ApplyUpdate(now, PublishOp(g, crc, now, i'), ops);
      PublishedTable(g, crc, now, i', id);
      forall e: Disk, k | 0 <= k < |ops| && Fits(g, crc, now, e, o, c)
        ensures Fits(g, crc, now, ApplyOp(e, ops[k]), o, c)
      {
        if ops[k].Write? {
          OtherFits(g, crc, now, e, i, o, c);
        }
      }
    }
    OpsKeepTracks(g, crc, s, id, init, o, c, ops);
  }

  /** The prepared image is a version, one entry longer than the published one and apart from it. */
  lemma ExtendedVersion(
    g: Geometry, crc: Checksum, d0: Disk, d: Disk, c: Version, first: U64, blocks: U64, entry: Entry)
    returns (v: Version)
    requires g.Valid(|d0|) && |d| == |d0| && Carries(g, crc, d0, c)
    requires EntryAcceptable(entry) && |entry.name| <= 63 && ChildMatches(InodeAt(g, crc, d0, entry.inodeId), entry)
    requires ImageReady(g, d0, d, c.inode, first, blocks, EncodeRecord(crc, entry))
    requires SameChildren(g, crc, d0, d) && c.inode.size + 128 <= UINT64_MAX && c.inode.revision < UINT32_MAX
    requires InodeExtentStatus(g, d, Candidate(c.inode, first, blocks)) == Ok
    ensures v.inode == Candidate(c.inode, first, blocks).(revision := c.inode.revision + 1)
    ensures v.list == c.list + [entry]
    ensures Carries(g, crc, d, v) && Apart(c.inode, v.inode)
  {
    hide InodeAt, Flat, CheckedEntry, EncodeRecord, EntryAcceptable, SameChildren, KeepsDir, FreeRun, ExtentStatus;
    var dir := c.inode;
    var record := EncodeRecord(crc, entry);
    v := Version(Candidate(dir, first, blocks).(revision := dir.revision + 1), c.image + record, c.list + [entry]);
    FlatJoin(d, first, dir.size, 128);
    NewRecordReads(g, crc, d0, d, entry);
    DecodedTransfer(g, crc, d0, d, c.image);
    assert v.image[..|v.image| - 128] == c.image && v.image[|v.image| - 128..] == record;
    ImageIsApart(g, d0, dir, first, blocks);
  }

  lemma ImageIsApart(g: Geometry, d: Disk, dir: Inode, first: U64, blocks: U64)
    requires DirSound(g, d, dir) && blocks > 0
    ensures FreeRun(g, d, first, blocks) ==>
      dir.size == 0 || dir.extentStart + dir.extentBlocks <= first || first + blocks <= dir.extentStart
  {
    if FreeRun(g, d, first, blocks) && dir.size != 0 {
      var y := if dir.extentStart < first then first else dir.extentStart;
      assert first <= y < first + blocks ==> !Allocated(g, d, y);
    }
  }

  /** After a flush only the contents of now survive a cut, and after one more write those with or without it. */
  lemma AfterFlush(base: Disk, log: seq<Op>, w: Op, ops: seq<Op>, d: Disk)
    requires Flushed(log) && w.Write? && (ops == [w] || ops == [w, Flush])
    requires CanCrashTo(base, log + ops, d)
    ensures d == ApplyOp(Apply(base, log), w) || (ops == [w] && d == Apply(base, log))
  {
    hide Apply, ApplyOp;
    CrashAfterFlush(base, log, ops, d);
    if ops == [w] {
      assert ops[..1] == ops;
      CrashPointOneWrite(Apply(base, log), w, ops, d);
    } else {
      assert ops[..1] == [w];
      ApplyOneMore(Apply(base, log), [], w);
      ApplyNothing(Apply(base, log));
      assert [] + [w] == [w];
    }
  }

  /** The contents before and after the publication write hold both versions and show one. */
  lemma PublishFits(g: Geometry, crc: Checksum, d: Disk, c: Version, v: Version)
    requires g.Valid(|d|) && Carries(g, crc, d, c) && Carries(g, crc, d, v)
    requires InodeAt(g, crc, d, c.inode.id) == Success(c.inode) && v.inode.id == c.inode.id
    requires v.inode.generation == c.inode.generation && v.inode.kind == c.inode.kind
    requires Acceptable(v.inode, v.inode.id) && v.inode.revision != 0
    ensures
      var d' := ApplyOp(d, PublishOp(g, crc, d, v.inode));
      && |d'| == |d| && InodeAt(g, crc, d', v.inode.id) == Success(v.inode)
      && Fits(g, crc, d', d, c, v) && Fits(g, crc, d', d', c, v) && Fits(g, crc, d', d', v, v)
  {
    hide InodeAt, PublishOp, Carries, SameChildren;
    var d' := ApplyOp(d, PublishOp(g, crc, d, v.inode));
    PublishedTable(g, crc, d, v.inode, v.inode.id);
    SameChildrenSelf(g, crc, d);
    PublishKeepsChildren(g, crc, d, d, c.inode, v.inode);
    ChildrenTrans(g, crc, d, d', d);
    ChildrenTrans(g, crc, d, d', d');
    TableWriteCarries(g, crc, d, d, v.inode, c);
    TableWriteCarries(g, crc, d, d, v.inode, v);
  }

  lemma SameChildrenSelf(g: Geometry, crc: Checksum, d: Disk)
    requires g.Valid(|d|)
    ensures SameChildren(g, crc, d, d)
  {
    hide InodeAt;
  }

  /** A publication on flushed contents makes c the older version and v the one in the table. */
  lemma PublicationFits(
    g: Geometry, crc: Checksum, base: Disk, log: seq<Op>, c: Version, v: Version, upd: seq<Op>)
    requires g.Valid(|base|) && Flushed(log)
    requires var d := Apply(base, log);
      && Carries(g, crc, d, c) && Carries(g, crc, d, v) && InodeAt(g, crc, d, c.inode.id) == Success(c.inode)
    requires v.inode.id == c.inode.id && v.inode.generation == c.inode.generation && v.inode.kind == c.inode.kind
    requires Acceptable(v.inode, v.inode.id) && v.inode.revision != 0 && v.inode.id <= g.inodeCount
    requires var w := PublishOp(g, crc, Apply(base, log), v.inode); upd == [w] || upd == [w, Flush]
    ensures InodeAt(g, crc, Apply(base, log + upd), v.inode.id) == Success(v.inode)
    ensures AllFit(g, crc, base, log + upd, c, v)
    ensures |upd| == 2 ==> AllFit(g, crc, base, log + upd, v, v)
  {
    hide InodeAt, PublishOp, Carries, CanCrashTo, Apply, Fits;
    var d := Apply(base, log);
    var w := PublishOp(g, crc, d, v.inode);
    ApplyConcat(base, log, upd);
    ApplyUpdate(d, w, upd);
    PublishFits(g, crc, d, c, v);
    forall x: Disk | CanCrashTo(base, log + upd, x)
      ensures Fits(g, crc, ApplyOp(d, w), x, c, v) && (|upd| == 2 ==> Fits(g, crc, ApplyOp(d, w), x, v, v))
    {
      AfterFlush(base, log, w, upd, x);
    }
  }

  lemma AppendKeepsDistinct(g: Geometry, crc: Checksum, d: Disk, c: Version, entry: Entry)
    requires g.Valid(|d|) && Carries(g, crc, d, c) && InodeAt(g, crc, d, c.inode.id) == Success(c.inode)
    requires Vacant(g, crc, d, c.inode.id, entry.name, entry.inodeId) && Distinct(c.list)
    ensures Distinct(c.list + [entry])
  {
    hide InodeAt, View, Carries;
    CarriedView(g, crc, d, c);
    forall i, j | 0 <= i < j < |c.list + [entry]|
      ensures (c.list + [entry])[i].name != (c.list + [entry])[j].name
           && (c.list + [entry])[i].inodeId != (c.list + [entry])[j].inodeId
    {
      if j == |c.list| {
        assert c.list[i].name != entry.name && c.list[i].inodeId != entry.inodeId;
      }
    }
  }

  /** What a prepared append publishes. */
  lemma PreparedVersion(
    g: Geometry, crc: Checksum, d0: Disk, prep: seq<Op>, upd: seq<Op>, c: Version, entry: Entry, result: Result<Inode>)
    returns (v: Version)
    requires g.Valid(|d0|) && AppendSpec(g, crc, d0, c.inode, entry, prep, upd, result) && upd != []
    requires Carries(g, crc, d0, c)
    ensures Flushed(prep) && Vacant(g, crc, d0, c.inode.id, entry.name, entry.inodeId)
    ensures v.list == c.list + [entry] && Carries(g, crc, Apply(d0, prep), v) && Apart(c.inode, v.inode)
    ensures v.inode.id == c.inode.id && v.inode.generation == c.inode.generation && v.inode.kind == c.inode.kind
    ensures Acceptable(v.inode, v.inode.id) && v.inode.revision != 0 && v.inode.id <= g.inodeCount
    ensures
      var w := PublishOp(g, crc, Apply(d0, prep), v.inode);
      (upd == [w] && result.Failure?) || upd == [w, Flush]
  {
    hide InodeAt, PublishOp, Carries, Apply, ImageReady, EncodeRecord, HarmlessOps, SameChildren, Vacant,
         EntryAcceptable, DirectoryStatus, ExtentStatus, Sound;
    var first: U64, blocks: U64 :|
      && Prepared(g, crc, d0, prep, c.inode, first, blocks, entry)
      && UpdateSpec(g, crc, Apply(d0, prep), Candidate(c.inode, first, blocks), upd, result);
    NameFits(entry);
    assert SameChildren(g, crc, d0, Apply(d0, prep)) by {
      ImageReadyKeeps(g, d0, Apply(d0, prep), c.inode, first, blocks, EncodeRecord(crc, entry));
      TableSameChildren(g, crc, d0, Apply(d0, prep));
    }
    v := ExtendedVersion(g, crc, d0, Apply(d0, prep), c, first, blocks, entry);
  }

  lemma AppendKeepsSafe(
    g: Geometry, crc: Checksum, s: State, id: U64, init: seq<Entry>, e: Event, o: Version, c: Version)
    requires Tracks(g, crc, s, id, init, o, c)
    requires e.Append? && Enabled(g, crc, s, id, e)
    ensures Safe(g, crc, Next(g, crc, s, e), id, init)
  {
    hide InodeAt, Apply, CanCrashTo, Fits, Holds, HarmlessOps, AppendSpec, AllFit;
    var now, s' := s.Now(), Next(g, crc, s, e);
    var entry := NewEntry(g, crc, now, e.name, e.child);
    if e.prep == [] && e.upd == [] {
      assert s.log + (e.prep + e.upd) == s.log;
      AppendOutcome(g, crc, now, e.snapshot, entry, e.prep, e.upd, e.result);
      assert Tracks(g, crc, s', id, init, o, c);
    } else {
      AppendOutcome(g, crc, now, e.snapshot, entry, e.prep, e.upd, e.result);
      var s1 := s.(log := s.log + e.prep);
      HarmlessKeepsTracks(g, crc, s, id, init, o, c, e.prep);
      if e.upd == [] {
        assert s.log + (e.prep + e.upd) == s.log + e.prep;
        assert Tracks(g, crc, s', id, init, o, c);
      } else {
        PublishKeepsSafe(g, crc, s, s', id, init, e, o, c);
      }
    }
  }

  lemma AppendOutcome(
    g: Geometry, crc: Checksum, d0: Disk, dir: Inode, entry: Entry, prep: seq<Op>, upd: seq<Op>, result: Result<Inode>)
    requires g.Valid(|d0|) && AppendSpec(g, crc, d0, dir, entry, prep, upd, result)
    ensures prep != [] || upd != [] ==> InodeAt(g, crc, d0, dir.id) == Success(dir)
    ensures HarmlessOps(g, d0, prep, dir)
    ensures upd == [] ==> result.Failure?
  {
    hide InodeAt, HarmlessOps, ImageReady, UpdateSpec, View;
  }

  lemma PublishKeepsSafe(
    g: Geometry, crc: Checksum, s: State, s': State, id: U64, init: seq<Entry>, e: Event, o: Version, c: Version)
    requires Tracks(g, crc, s, id, init, o, c)
    requires e.Append? && Enabled(g, crc, s, id, e) && s' == Next(g, crc, s, e)
    requires e.upd != [] && e.snapshot == c.inode
    requires Tracks(g, crc, s.(log := s.log + e.prep), id, init, o, c)
    ensures Safe(g, crc, s', id, init)
  {
    hide InodeAt, Apply, CanCrashTo, Holds, HarmlessOps, AppendSpec, Carries, SameChildren, PublishOp, Vacant, Distinct;
    var now, log1 := s.Now(), s.log + e.prep;
    var entry := NewEntry(g, crc, now, e.name, e.child);
    NowIsCrashState(s.base, s.log);
    NowIsCrashState(s.base, log1);
    ApplyConcat(s.base, s.log, e.prep);
    var v := PreparedVersion(g, crc, now, e.prep, e.upd, c, entry, e.result);
    PublicationFits(g, crc, s.base, log1, c, v, e.upd);
    assert s'.log == log1 + e.upd;
    assert Distinct(c.list + [entry]) by {
      assert Distinct(c.list) by { HoldsDistinct(s.acked, s.reached, init, c.list); }
      AppendKeepsDistinct(g, crc, now, c, entry);
    }
    HoldsMore(s.acked, s.reached, init, c.list, entry);
    assert init + s.reached + [entry] == init + (s.reached + [entry]);
    assert Apart(v.inode, v.inode);
    if e.result.Success? {
      assert Tracks(g, crc, s', id, init, v, v);
    } else {
      assert Tracks(g, crc, s', id, init, c, v);
    }
  }

  lemma HoldsDistinct(acked: seq<Entry>, reached: seq<Entry>, init: seq<Entry>, list: seq<Entry>)
    requires Holds(acked, reached, init, list)
    ensures Distinct(list)
  {
  }

  lemma CutKeepsSafe(
    g: Geometry, crc: Checksum, s: State, id: U64, init: seq<Entry>, survivor: Disk, o: Version, c: Version)
    requires Tracks(g, crc, s, id, init, o, c)
    requires Enabled(g, crc, s, id, PowerCut(survivor))
    ensures Safe(g, crc, Next(g, crc, s, PowerCut(survivor)), id, init)
  {
    hide InodeAt, Carries, SameChildren, Holds;
    var s' := Next(g, crc, s, PowerCut(survivor));
    assert Fits(g, crc, s.Now(), survivor, o, c);
    var v := if InodeAt(g, crc, survivor, id) == Success(c.inode) then c else o;
    SameChildrenSelf(g, crc, survivor);
    assert AllFit(g, crc, survivor, [], v, v);
    assert Apart(v.inode, v.inode);
    assert Tracks(g, crc, s', id, init, v, v);
  }

  lemma EventKeepsSafe(g: Geometry, crc: Checksum, s: State, id: U64, init: seq<Entry>, e: Event)
    requires Safe(g, crc, s, id, init) && g.Valid(|s.base|) && Enabled(g, crc, s, id, e)
    ensures Safe(g, crc, Next(g, crc, s, e), id, init) && g.Valid(|Next(g, crc, s, e).base|)
  {
    hide Tracks, AppendSpec, UpdateSpec, CanCrashTo, InodeAt, Apply, HarmlessOps, GrowOps;
    var o: Version, c: Version :| Tracks(g, crc, s, id, init, o, c);
    match e {
      case Append(_, _, _, _, _, _) => AppendKeepsSafe(g, crc, s, id, init, e, o, c);
      case UpdateOther(inode, ops, result) => OtherKeepsTracks(g, crc, s, id, init, o, c, inode, ops, result);
      case Allocate(ops, extent) =>
        GrowIsHarmless(g, s.Now(), ops, c.inode);
        HarmlessKeepsTracks(g, crc, s, id, init, o, c, ops);
      case PowerCut(survivor) => CutKeepsSafe(g, crc, s, id, init, survivor, o, c);
    }
  }

  // ----- Whole runs -----

  /** A freshly mounted device on which the directory decodes to init. */
  ghost predicate Starts(g: Geometry, crc: Checksum, s: State, id: U64, init: seq<Entry>) {
    && g.Valid(|s.base|) && s == State(s.base, [], [], [], 0)
    && View(g, crc, s.base, id) == Success(init) && Distinct(init)
  }

  lemma StartIsSafe(g: Geometry, crc: Checksum, s: State, id: U64, init: seq<Entry>)
    requires Starts(g, crc, s, id, init)
    ensures Safe(g, crc, s, id, init)
  {
    hide InodeAt, Carries, SameChildren, EntriesUpTo;
    var dir := InodeAt(g, crc, s.base, id).value;
    var v := ViewCarried(g, crc, s.base, dir);
    SameChildrenSelf(g, crc, s.base);
    assert AllFit(g, crc, s.base, [], v, v);
    assert Tracks(g, crc, s, id, init, v, v);
  }

  lemma {:induction false} RunKeepsSafe(
    g: Geometry, crc: Checksum, s: State, id: U64, init: seq<Entry>, events: seq<Event>)
    requires Safe(g, crc, s, id, init) && IsRun(g, crc, s, id, events)
    ensures Safe(g, crc, Final(g, crc, s, id, events), id, init)
    decreases |events|
  {
    hide Safe, Enabled, Next;
    if events != [] {
      EventKeepsSafe(g, crc, s, id, init, events[0]);
      RunKeepsSafe(g, crc, Next(g, crc, s, events[0]), id, init, events[1..]);
    }
  }

  /**
   Directory refinement. After any run, power cuts included, every image that can survive decodes to the
   starting list followed by every entry whose append returned success, in order, and otherwise only by
   entries whose publication reached the device, with pairwise distinct names and children. As long as power
   was never cut, the directory holds the starting list followed by exactly the entries that were published.
   */
  lemma RunRefinesList(
    g: Geometry, crc: Checksum, s: State, id: U64, init: seq<Entry>, events: seq<Event>, d: Disk)
    requires Starts(g, crc, s, id, init) && IsRun(g, crc, s, id, events)
    ensures
      var end := Final(g, crc, s, id, events);
      && g.Valid(|end.base|)
      && (CanCrashTo(end.base, end.log, d) ==>
            && |d| == |end.base| && View(g, crc, d, id).Success?
            && Holds(end.acked, end.reached, init, View(g, crc, d, id).value))
      && (end.cuts == 0 ==> View(g, crc, end.Now(), id) == Success(init + end.reached))
  {
    hide InodeAt, View, Carries, Holds, IsRun, Final, CanCrashTo, Apply, SameChildren, Starts;
    StartIsSafe(g, crc, s, id, init);
    RunKeepsSafe(g, crc, s, id, init, events);
    var end := Final(g, crc, s, id, events);
    var o: Version, c: Version :| Tracks(g, crc, end, id, init, o, c);
    NowIsCrashState(end.base, end.log);
    CarriedView(g, crc, end.Now(), c);
    if CanCrashTo(end.base, end.log, d) {
      assert Fits(g, crc, end.Now(), d, o, c);
      CarriedView(g, crc, d, if InodeAt(g, crc, d, id) == Success(c.inode) then c else o);
    }
  }

  /** The publication write of an append of that name reached the device. */
  predicate WasPublished(events: seq<Event>, name: seq<Byte>) {
    exists k :: 0 <= k < |events| && events[k].Append? && events[k].upd != [] && events[k].name == name
  }

  predicate WasAcknowledged(events: seq<Event>, name: seq<Byte>) {
    exists k :: 0 <= k < |events| && events[k].Append? && events[k].result.Success? && events[k].name == name
  }

  predicate CutFree(events: seq<Event>) {
    forall k :: 0 <= k < |events| ==> !events[k].PowerCut?
  }

  lemma NamedMore(entries: seq<Entry>, entry: Entry, name: seq<Byte>)
    ensures Named(entries + [entry], name) <==> Named(entries, name) || entry.name == name
  {
    if Named(entries, name) {
      var i :| 0 <= i < |entries| && entries[i].name == name;
      assert (entries + [entry])[i].name == name;
    }
    assert (entries + [entry])[|entries|] == entry;
  }

  lemma NextRecords(g: Geometry, crc: Checksum, s: State, id: U64, e: Event, name: seq<Byte>)
    requires g.Valid(|s.base|) && Enabled(g, crc, s, id, e)
    ensures
      var s' := Next(g, crc, s, e);
      && (Named(s'.reached, name) <==> Named(s.reached, name) || (e.Append? && e.upd != [] && e.name == name))
      && (Named(s'.acked, name) <==> Named(s.acked, name) || (e.Append? && e.result.Success? && e.name == name))
      && s'.cuts == s.cuts + if e.PowerCut? then 1 else 0
  {
    hide Named, AppendSpec, UpdateSpec, AllocateSpec, CanCrashTo, InodeAt;
    if e.Append? {
      var entry := NewEntry(g, crc, s.Now(), e.name, e.child);
      NamedMore(s.reached, entry, name);
      NamedMore(s.acked, entry, name);
    }
  }

  /** What the records of a run say about its events. */
  lemma {:induction false} RunRecords(
    g: Geometry, crc: Checksum, s: State, id: U64, events: seq<Event>, name: seq<Byte>)
    requires IsRun(g, crc, s, id, events)
    ensures
      var end := Final(g, crc, s, id, events);
      && (Named(end.reached, name) <==> Named(s.reached, name) || WasPublished(events, name))
      && (Named(end.acked, name) <==> Named(s.acked, name) || WasAcknowledged(events, name))
      && (CutFree(events) ==> end.cuts == s.cuts)
    decreases |events|
  {
    hide Named, Enabled, Next;
    if events != [] {
      var e, rest := events[0], events[1..];
      assert forall k :: 1 <= k < |events| ==> events[k] == rest[k - 1];
      assert forall k :: 0 <= k < |rest| ==> rest[k] == events[k + 1];
      NextRecords(g, crc, s, id, e, name);
      RunRecords(g, crc, Next(g, crc, s, e), id, rest, name);
      EventNames(events, name);
    }
  }

  lemma EventNames(events: seq<Event>, name: seq<Byte>)
    requires events != []
    ensures
      var e, rest := events[0], events[1..];
      && (WasPublished(events, name) <==> (e.Append? && e.upd != [] && e.name == name) || WasPublished(rest, name))
      && (WasAcknowledged(events, name) <==>
            (e.Append? && e.result.Success? && e.name == name) || WasAcknowledged(rest, name))
  {
    var rest := events[1..];
    assert forall k :: 1 <= k < |events| ==> events[k] == rest[k - 1];
    assert forall k :: 0 <= k < |rest| ==> rest[k] == events[k + 1];
  }

  /**
   A name is in the directory after any run without a power cut, whatever its appends returned, exactly if
   it was there at the start or an append of it got as far as its publication write.
   */
  lemma PresentIffPublished(
    g: Geometry, crc: Checksum, s: State, id: U64, init: seq<Entry>, events: seq<Event>, name: seq<Byte>)
    requires Starts(g, crc, s, id, init) && IsRun(g, crc, s, id, events) && CutFree(events)
    ensures
      var end := Final(g, crc, s, id, events);
      && g.Valid(|end.base|) && View(g, crc, end.Now(), id).Success?
      && (Named(View(g, crc, end.Now(), id).value, name) <==> Named(init, name) || WasPublished(events, name))
  {
    hide View, IsRun, Final, Apply, CanCrashTo, Holds, Named;
    RunRefinesList(g, crc, s, id, init, events, s.base);
    RunRecords(g, crc, s, id, events, name);
    var end := Final(g, crc, s, id, events);
    NamedConcat(init, end.reached, name);
    assert !Named(s.reached, name);
  }

  lemma NamedConcat(a: seq<Entry>, b: seq<Entry>, name: seq<Byte>)
    ensures Named(a + b, name) <==> Named(a, name) || Named(b, name)
    ensures !Named([], name)
  {
    if Named(a, name) {
      var i :| 0 <= i < |a| && a[i].name == name;
      assert (a + b)[i].name == name;
    }
    if Named(b, name) {
      var i :| 0 <= i < |b| && b[i].name == name;
      assert (a + b)[|a| + i].name == name;
    }
  }

  lemma ListLength(g: Geometry, crc: Checksum, d: Disk, dir: Inode)
    requires g.Valid(|d|) && Sound(g, crc, d, dir)
    ensures |View(g, crc, d, dir.id).value| <= UINT64_MAX
  {
    hide InodeAt;
  }

  /**
   Whatever power cuts a run contained and whatever image survives its end, looking a name up finds the very
   entry the directory started with or whose append returned success, and finds no entry that was neither
   there at the start nor published.
   */
  lemma LookupAfterRun(
    g: Geometry, crc: Checksum, s: State, id: U64, init: seq<Entry>, events: seq<Event>, d: Disk, dir: Inode,
    name: Name)
    requires Starts(g, crc, s, id, init) && IsRun(g, crc, s, id, events)
    requires var end := Final(g, crc, s, id, events);
      g.Valid(|d|) && CanCrashTo(end.base, end.log, d) && InodeAt(g, crc, d, id) == Success(dir)
    ensures
      var end := Final(g, crc, s, id, events);
      && (forall e :: (e in init || e in end.acked) && e.name == name ==>
            exists index: U64 :: FirstNamed(g, crc, d, dir, name, index, e))
      && (forall index: U64, e :: FirstNamed(g, crc, d, dir, name, index, e) ==> e in init || e in end.reached)
  {
    hide View, IsRun, Final, Apply, CanCrashTo, InodeAt, Within, FirstNamed;
    RunRefinesList(g, crc, s, id, init, events, d);
    var end, list := Final(g, crc, s, id, events), View(g, crc, d, id).value;
    var tail := list[|init|..];
    assert list == init + tail;
    LookupExact(g, crc, d, dir, name);
    ListLength(g, crc, d, dir);
    forall e | (e in init || e in end.acked) && e.name == name
      ensures exists index: U64 :: FirstNamed(g, crc, d, dir, name, index, e)
    {
      if e !in init {
        WithinHas(end.acked, tail, e);
      }
      var i :| 0 <= i < |list| && list[i] == e;
      var at := Position(list, name);
      assert at == i;
      assert FirstNamed(g, crc, d, dir, name, at, e);
    }
    forall index: U64, e | FirstNamed(g, crc, d, dir, name, index, e) ensures e in init || e in end.reached {
      if e !in init {
        WithinHas(tail, end.reached, e);
      }
    }
  }

  // ----- Power cuts inside an operation -----

  function Ops(e: Event): seq<Op> {
    match e
    case Append(_, _, _, prep, upd, _) => prep + upd
    case UpdateOther(_, ops, _) => ops
    case Allocate(ops, _) => ops
    case PowerCut(_) => []
  }

  /** An operation cut short after k accepted operations is itself an operation that failed. */
  lemma CutInside(g: Geometry, crc: Checksum, s: State, id: U64, e: Event, k: nat) returns (e': Event)
    requires g.Valid(|s.base|) && Enabled(g, crc, s, id, e) && !e.PowerCut? && k < |Ops(e)|
    ensures Enabled(g, crc, s, id, e') && !e'.PowerCut? && Ops(e') == Ops(e)[..k]
    ensures e.Append? ==> e'.Append? && e'.result.Failure?
  {
    hide InodeAt, Apply, Harmless, GrowOp, MayPublish, PublishOp, ImageReady, View;
    match e {
      case Append(snapshot, name, child, prep, upd, result) =>
        if k <= |prep| {
          e' := Append(snapshot, name, child, prep[..k], [], Failure(BlockDeviceError));
          assert prep[..k] + [] == (prep + upd)[..k];
        } else {
          e' := Append(snapshot, name, child, prep, upd[..k - |prep|], Failure(BlockDeviceError));
          assert prep + upd[..k - |prep|] == (prep + upd)[..k];
        }
      case UpdateOther(inode, ops, result) => e' := UpdateOther(inode, ops[..k], Failure(BlockDeviceError));
      case Allocate(ops, extent) => e' := Allocate(ops[..k], Failure(BlockDeviceError));
    }
  }
}
