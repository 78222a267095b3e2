/**
 Whole runs of optimistic inode updates by any number of clients, with device
 failures inside the calls and power cuts between them.
 */
module KuroInodeRun {
  import opened Bytes
  import opened KuroDisk
  import opened KuroBitmap
  import opened KuroInode

  type Checksum = seq<Byte> -> U32

  /** The contents at power-up, what was accepted since, and the snapshots whose update succeeded. */
  datatype State = State(base: Disk, log: seq<Op>, wins: seq<Inode>)
  {
    function Now(): Disk {
      Apply(base, log)
    }
  }

  datatype Event =
    | Update(snapshot: Inode, ops: seq<Op>, result: Result<Inode>)
    | PowerCut(survivor: Disk)

  ghost predicate Enabled(g: Geometry, crc: Checksum, s: State, e: Event)
    requires g.Valid(|s.base|)
  {
    match e
    case Update(i, ops, result) => UpdateSpec(g, crc, s.Now(), i, ops, result)
    case PowerCut(survivor) => CanCrashTo(s.base, s.log, survivor) && |survivor| == |s.base|
  }

  function Next(s: State, e: Event): State {
    match e
    case Update(i, ops, result) => State(s.base, s.log + ops, if result.Success? then s.wins + [i] else s.wins)
    case PowerCut(survivor) => State(survivor, [], s.wins)
  }

  ghost predicate IsRun(g: Geometry, crc: Checksum, s: State, events: seq<Event>)
    requires g.Valid(|s.base|)
    decreases |events|
  {
    events == [] || (Enabled(g, crc, s, events[0]) && IsRun(g, crc, Next(s, events[0]), events[1..]))
  }

  function Final(s: State, events: seq<Event>): State
    decreases |events|
  {
    if events == [] then s else Final(Next(s, events[0]), events[1..])
  }

  /** The table is past every revision an update succeeded from, in the same incarnation. */
  ghost predicate PastWins(g: Geometry, crc: Checksum, d: Disk, wins: seq<Inode>)
    requires g.Valid(|d|)
  {
    forall k :: 0 <= k < |wins| ==> Past(InodeAt(g, crc, d, wins[k].id), wins[k])
  }

  predicate Past(read: Result<Inode>, win: Inode) {
    && read.Success?
    && read.value.generation == win.generation
    && read.value.kind == win.kind
    && read.value.revision > win.revision
  }

  /** Successive successes on one inode start from strictly rising revisions of one incarnation. */
  ghost predicate Rising(wins: seq<Inode>) {
    forall j, k :: 0 <= j < k < |wins| && wins[j].id == wins[k].id ==>
      && wins[j].revision < wins[k].revision
      && wins[j].generation == wins[k].generation
      && wins[j].kind == wins[k].kind
  }

  ghost predicate Safe(g: Geometry, crc: Checksum, s: State) {
    && g.Valid(|s.base|)
    && Rising(s.wins)
    && forall d: Disk :: CanCrashTo(s.base, s.log, d) ==> |d| == |s.base| && PastWins(g, crc, d, s.wins)
  }

  // ----- One update -----

  /**
   One update raises the stored revision by exactly one or leaves the table alone; it never changes
   the generation or the type, nor any other inode.
   */
  lemma UpdateEffect(g: Geometry, crc: Checksum, d: Disk, i: Inode, ops: seq<Op>, result: Result<Inode>, id: U64)
    requires g.Valid(|d|)
    requires UpdateSpec(g, crc, d, i, ops, result)
    ensures
      var before, after := InodeAt(g, crc, d, id), InodeAt(g, crc, Apply(d, ops), id);
      if ops == [] || id != i.id then after == before
      else
        && before.Success? && after.Success?
        && after.value == i.(revision := before.value.revision + 1)
        && after.value.generation == before.value.generation
        && after.value.kind == before.value.kind
    ensures result.Success? ==> ops != []
  {
    hide InodeAt, PublishOp, InodeExtentStatus;
    if ops != [] {
      var c := i.(revision := i.revision + 1);
      var w := PublishOp(g, crc, d, c);
      ApplyUpdate(d, w, ops);
      PublishedTable(g, crc, d, c, id);
    }
  }

  // ----- Runs -----

  lemma PublishKeepsPast(g: Geometry, crc: Checksum, d: Disk, e: Disk, i: Inode, wins: seq<Inode>)
    requires g.Valid(|d|) && |e| == |d|
    requires MayPublish(g, crc, d, i)
    requires PastWins(g, crc, d, wins) && PastWins(g, crc, e, wins)
    ensures PastWins(g, crc, ApplyOp(e, PublishOp(g, crc, d, i.(revision := i.revision + 1))), wins)
  {
    hide InodeAt, PublishOp, InodeExtentStatus;
    var c := i.(revision := i.revision + 1);
    var w := PublishOp(g, crc, d, c);
    forall k | 0 <= k < |wins| ensures Past(InodeAt(g, crc, ApplyOp(e, w), wins[k].id), wins[k]) {
      assert Past(InodeAt(g, crc, d, wins[k].id), wins[k]);
      assert Past(InodeAt(g, crc, e, wins[k].id), wins[k]);
      PublishOver(g, crc, d, e, c, wins[k].id);
      PublishedTable(g, crc, d, c, wins[k].id);
    }
  }

  lemma OpsKeepPast(g: Geometry, crc: Checksum, s: State, i: Inode, ops: seq<Op>, result: Result<Inode>, d: Disk)
    requires Safe(g, crc, s)
    requires UpdateSpec(g, crc, s.Now(), i, ops, result)
    requires CanCrashTo(s.base, s.log + ops, d)
    ensures |d| == |s.base| && PastWins(g, crc, d, s.wins)
  {
    hide InodeAt, PublishOp, InodeExtentStatus, Apply, CanCrashTo;
    var now, n, wins := s.Now(), |s.base|, s.wins;
    NowIsCrashState(s.base, s.log);
    var P := (e: Disk) => |e| == n && g.Valid(|e|) && PastWins(g, crc, e, wins);
    forall e: Disk, k | 0 <= k < |ops| && P(e) ensures P(ApplyOp(e, ops[k])) {
      if ops[k].Write? {
        PublishKeepsPast(g, crc, now, e, i, wins);
      }
    }
    CrashInvariantFrom(s.base, s.log, ops, P, d);
  }

  lemma UpdateKeepsSafe(g: Geometry, crc: Checksum, s: State, i: Inode, ops: seq<Op>, result: Result<Inode>)
    requires Safe(g, crc, s)
    requires UpdateSpec(g, crc, s.Now(), i, ops, result)
    ensures Safe(g, crc, Next(s, Update(i, ops, result)))
  {
    hide InodeAt, PublishOp, InodeExtentStatus, Apply, CanCrashTo;
    var now, s' := s.Now(), Next(s, Update(i, ops, result));
    NowIsCrashState(s.base, s.log);
    forall d: Disk | CanCrashTo(s'.base, s'.log, d) ensures |d| == |s'.base| && PastWins(g, crc, d, s'.wins) {
      OpsKeepPast(g, crc, s, i, ops, result, d);
      if result.Success? {
        FlushedUpdate(s.base, s.log, ops, d);
        UpdateEffect(g, crc, now, i, ops, result, i.id);
        assert Past(InodeAt(g, crc, d, i.id), i);
      }
    }
    forall k | 0 <= k < |s.wins| ensures Past(InodeAt(g, crc, now, s.wins[k].id), s.wins[k]) {
    }
  }

  lemma FlushedUpdate(base: Disk, log: seq<Op>, ops: seq<Op>, d: Disk)
    requires |ops| == 2 && ops[1] == Flush
    requires CanCrashTo(base, log + ops, d)
    ensures d == Apply(Apply(base, log), ops)
  {
    var rest := ops[..1];
    assert (log + ops)[..|log + ops| - 1] == log + rest;
    ApplyConcat(base, log, rest);
  }

  /**
   Optimistic updates. In every run, at most one update succeeds from any revision of an inode,
   successes start from strictly rising revisions of one incarnation, and the stored revision is
   past all of them in every state the device can come back in.
   */
  lemma {:induction false} AtMostOneWinPerRevision(g: Geometry, crc: Checksum, s: State, events: seq<Event>)
    requires Safe(g, crc, s)
    requires IsRun(g, crc, s, events)
    ensures Safe(g, crc, Final(s, events))
    decreases |events|
  {
    hide UpdateSpec, PastWins;
    if events != [] {
      var e := events[0];
      match e {
        case Update(i, ops, result) => UpdateKeepsSafe(g, crc, s, i, ops, result);
        case PowerCut(survivor) =>
          assert PastWins(g, crc, survivor, s.wins);
      }
      AtMostOneWinPerRevision(g, crc, Next(s, e), events[1..]);
    }
  }
}
