/**
 The sector device under KuroFS: its contents, the log of sector writes and
 flushes it accepted, and the set of contents that can survive a power cut.

 A write that was accepted since the last flush may or may not have reached
 the medium, independently of every other such write; a flush makes all of
 them durable.
 */
module KuroDisk {
  import opened Bytes

  type Sector = s: seq<Byte> | |s| == 512 witness seq(512, _ => 0)
  type Disk = seq<Sector>

  datatype Status =
    | Ok | NotMounted | InvalidArgument | ArithmeticOverflow | InvalidSuperblock | CorruptSuperblock
    | InvalidGeometry | InvalidRootInode | InvalidInodeMetadata | InvalidExtent | OverlappingExtents | StaleInode
    | NotFound | AlreadyExists | NotDirectory | WouldCreateCycle | NameTooLong | CorruptDirectory | NoSpace
    | BlockDeviceError

  datatype Result<+T> = Success(value: T) | Failure(error: Status)

  predicate IsZero(s: Sector) {
    forall j :: 0 <= j < 512 ==> s[j] == 0
  }

  function ZeroSector(): (s: Sector)
    ensures IsZero(s)
  {
    seq(512, _ => 0)
  }

  // ----- Accepted operations and their effect -----

  datatype Op = Write(block: nat, data: Sector) | Flush

  function ApplyOp(d: Disk, op: Op): (r: Disk)
    ensures |r| == |d|
  {
    if op.Write? && op.block < |d| then d[op.block := op.data] else d
  }

  function Apply(d: Disk, ops: seq<Op>): (r: Disk)
    ensures |r| == |d|
  {
    if ops == [] then d else ApplyOp(Apply(d, ops[..|ops| - 1]), ops[|ops| - 1])
  }

  lemma ApplyNothing(d: Disk)
    ensures Apply(d, []) == d
  {
  }

  lemma ApplyOneMore(d: Disk, ops: seq<Op>, op: Op)
    ensures Apply(d, ops + [op]) == ApplyOp(Apply(d, ops), op)
  {
  }

  lemma {:induction false} ApplyConcat(d: Disk, a: seq<Op>, b: seq<Op>)
    ensures Apply(d, a + b) == Apply(Apply(d, a), b)
  {
    if b == [] {
      assert a + b == a;
    } else {
      var c := b[..|b| - 1];
      assert (a + b)[..|a + b| - 1] == a + c;
      ApplyConcat(d, a, c);
    }
  }

  // ----- Power cuts -----

  /** Contents d can be found after power is lost right after ops were accepted on d0. */
  ghost predicate CanCrashTo(d0: Disk, ops: seq<Op>, d: Disk)
    decreases |ops|
  {
    if ops == [] then d == d0
    else
      var rest, last := ops[..|ops| - 1], ops[|ops| - 1];
      if last.Flush? then d == Apply(d0, rest)
      else exists p: Disk :: CanCrashTo(d0, rest, p) && (d == p || d == ApplyOp(p, last))
  }

  /** Contents d can be found when power is lost at any moment while ops are accepted. */
  ghost predicate CrashPoint(d0: Disk, ops: seq<Op>, d: Disk) {
    exists k :: 0 <= k <= |ops| && CanCrashTo(d0, ops[..k], d)
  }

  /** Nothing is left unflushed. */
  predicate Settled(ops: seq<Op>) {
    ops == [] || ops[|ops| - 1].Flush?
  }

  /** The last thing accepted was a flush. */
  predicate Flushed(ops: seq<Op>) {
    ops != [] && ops[|ops| - 1].Flush?
  }

  /** What every accepted operation keeps holds after every power cut. */
  lemma {:induction false} CrashInvariant(d0: Disk, ops: seq<Op>, P: Disk -> bool, d: Disk)
    requires P(d0)
    requires forall e: Disk, i :: 0 <= i < |ops| && P(e) ==> P(ApplyOp(e, ops[i]))
    requires CanCrashTo(d0, ops, d)
    ensures P(d)
    decreases |ops|
  {
    if ops != [] {
      var rest, last := ops[..|ops| - 1], ops[|ops| - 1];
      forall e: Disk, i | 0 <= i < |rest| && P(e) ensures P(ApplyOp(e, rest[i])) {
        assert rest[i] == ops[i];
      }
      if last.Flush? {
        ApplyInvariant(d0, rest, P);
      } else {
        var p: Disk :| CanCrashTo(d0, rest, p) && (d == p || d == ApplyOp(p, last));
        CrashInvariant(d0, rest, P, p);
        assert last == ops[|ops| - 1];
      }
    }
  }

  lemma {:induction false} ApplyInvariant(d0: Disk, ops: seq<Op>, P: Disk -> bool)
    requires P(d0)
    requires forall e: Disk, i :: 0 <= i < |ops| && P(e) ==> P(ApplyOp(e, ops[i]))
    ensures P(Apply(d0, ops))
  {
    if ops != [] {
      var rest := ops[..|ops| - 1];
      forall e: Disk, i | 0 <= i < |rest| && P(e) ensures P(ApplyOp(e, rest[i])) {
        assert rest[i] == ops[i];
      }
      ApplyInvariant(d0, rest, P);
      assert P(ApplyOp(Apply(d0, rest), ops[|ops| - 1]));
    }
  }

  /** The same for operations accepted on top of ones that may still be unflushed. */
  lemma {:induction false} CrashInvariantFrom(base: Disk, log: seq<Op>, ops: seq<Op>, P: Disk -> bool, d: Disk)
    requires P(Apply(base, log))
    requires forall p: Disk :: CanCrashTo(base, log, p) ==> P(p)
    requires forall e: Disk, i :: 0 <= i < |ops| && P(e) ==> P(ApplyOp(e, ops[i]))
    requires CanCrashTo(base, log + ops, d)
    ensures P(d)
    decreases |ops|
  {
    if ops == [] {
      assert log + ops == log;
    } else {
      var rest, last := ops[..|ops| - 1], ops[|ops| - 1];
      assert (log + ops)[..|log + ops| - 1] == log + rest;
      forall e: Disk, i | 0 <= i < |rest| && P(e) ensures P(ApplyOp(e, rest[i])) {
        assert rest[i] == ops[i];
      }
      if last.Flush? {
        ApplyInvariant(Apply(base, log), rest, P);
        ApplyConcat(base, log, rest);
      } else {
        var q: Disk :| CanCrashTo(base, log + rest, q) && (d == q || d == ApplyOp(q, last));
        CrashInvariantFrom(base, log, rest, P, q);
        assert last == ops[|ops| - 1];
      }
    }
  }

  lemma {:induction false} NowIsCrashState(base: Disk, log: seq<Op>)
    ensures CanCrashTo(base, log, Apply(base, log))
  {
    if log != [] {
      NowIsCrashState(base, log[..|log| - 1]);
    }
  }

  lemma NowIsCrashPoint(d0: Disk, ops: seq<Op>)
    ensures CrashPoint(d0, ops, Apply(d0, ops))
  {
    NowIsCrashState(d0, ops);
    assert ops[..|ops|] == ops;
  }

  lemma CrashPointInvariant(d0: Disk, ops: seq<Op>, P: Disk -> bool, d: Disk)
    requires P(d0)
    requires forall e: Disk, i :: 0 <= i < |ops| && P(e) ==> P(ApplyOp(e, ops[i]))
    requires CrashPoint(d0, ops, d)
    ensures P(d)
  {
    var k :| 0 <= k <= |ops| && CanCrashTo(d0, ops[..k], d);
    forall e: Disk, i | 0 <= i < |ops[..k]| && P(e) ensures P(ApplyOp(e, ops[..k][i])) {
      assert ops[..k][i] == ops[i];
    }
    CrashInvariant(d0, ops[..k], P, d);
  }

  /** Once the first batch is flushed, only the second one is at risk. */
  lemma {:induction false} CrashAfterFlush(d0: Disk, a: seq<Op>, b: seq<Op>, d: Disk)
    requires Settled(a)
    requires CanCrashTo(d0, a + b, d)
    ensures CanCrashTo(Apply(d0, a), b, d)
    decreases |b|
  {
    if b == [] {
      assert a + b == a;
    } else {
      var c, last := b[..|b| - 1], b[|b| - 1];
      assert (a + b)[..|a + b| - 1] == a + c;
      if last.Flush? {
        ApplyConcat(d0, a, c);
      } else {
        var p: Disk :| CanCrashTo(d0, a + c, p) && (d == p || d == ApplyOp(p, last));
        CrashAfterFlush(d0, a, c, p);
      }
    }
  }

  /** A power cut during two flushed batches falls in the first or in the second. */
  lemma CrashPointSplit(d0: Disk, a: seq<Op>, b: seq<Op>, d: Disk)
    requires Settled(a)
    requires CrashPoint(d0, a + b, d)
    ensures CrashPoint(d0, a, d) || CrashPoint(Apply(d0, a), b, d)
  {
    var k :| 0 <= k <= |a + b| && CanCrashTo(d0, (a + b)[..k], d);
    if k <= |a| {
      assert (a + b)[..k] == a[..k];
    } else {
      var m := k - |a|;
      assert (a + b)[..k] == a + b[..m];
      CrashAfterFlush(d0, a, b[..m], d);
    }
  }

  /** A single sector write followed by its flush is all or nothing. */
  lemma CrashPointOneWrite(d0: Disk, w: Op, ops: seq<Op>, d: Disk)
    requires w.Write?
    requires ops == [] || ops == [w] || ops == [w, Flush]
    requires CrashPoint(d0, ops, d)
    ensures d == d0 || d == ApplyOp(d0, w)
  {
    var P := (e: Disk) => e == d0 || e == ApplyOp(d0, w);
    CrashPointInvariant(d0, ops, P, d);
  }

  // ----- Byte-exact frames -----

  /** d agrees with d0 on every byte whose device address lies outside [lo, hi). */
  ghost predicate SameOutside(d0: Disk, d: Disk, lo: int, hi: int) {
    && |d| == |d0|
    && forall b, j :: 0 <= b < |d0| && 0 <= j < 512 && !(lo <= b * 512 + j < hi)
         ==> d[b][j] == d0[b][j]
  }

  /** A write to a block that meets [lo, hi) and that puts d0's own bytes back everywhere outside it. */
  ghost predicate WriteWithin(d0: Disk, op: Op, lo: int, hi: int) {
    op.Write? ==>
      && op.block < |d0|
      && lo < op.block * 512 + 512 && op.block * 512 < hi
      && forall j :: 0 <= j < 512 && !(lo <= op.block * 512 + j < hi)
           ==> op.data[j] == d0[op.block][j]
  }

  // ----- The device -----

  class Device {
    var sectors: Disk
    ghost var log: seq<Op>
    const reliable: bool   // no access inside the device ever fails

    constructor (initial: Disk, reliable: bool)
      ensures sectors == initial && log == [] && this.reliable == reliable
    {
      sectors := initial;
      log := [];
      this.reliable := reliable;
    }

    /** The operations accepted since the log had length n. */
    ghost function Since(n: nat): seq<Op>
      requires n <= |log|
      reads this
    {
      log[n..]
    }

    method Read(block: nat) returns (status: Status, data: Sector)
      ensures status == Ok || status == BlockDeviceError
      ensures status == Ok ==> block < |sectors| && data == sectors[block]
      ensures reliable && block < |sectors| ==> status == Ok
    {
      data := ZeroSector();
      status := BlockDeviceError;
      if block < |sectors| {
        var ok: bool := *;
        if ok || reliable {
          status, data := Ok, sectors[block];
        }
      }
    }

    /** A write that reports failure may or may not have taken effect. */
    method Write(block: nat, data: Sector) returns (status: Status)
      modifies this
      ensures status == Ok || status == BlockDeviceError
      ensures status == Ok ==> block < |old(sectors)| && log == old(log) + [Op.Write(block, data)]
      ensures status != Ok ==>
        log == old(log) || (block < |old(sectors)| && log == old(log) + [Op.Write(block, data)])
      ensures |log| == |old(log)| ==> sectors == old(sectors)
      ensures |log| > |old(log)| ==> sectors == ApplyOp(old(sectors), Op.Write(block, data))
      ensures reliable && block < |old(sectors)| ==> status == Ok
    {
      status := BlockDeviceError;
      if block < |sectors| {
        var ok: bool, took: bool := *, *;
        ok := ok || reliable;
        if ok || took {
          sectors := sectors[block := data];
          log := log + [Op.Write(block, data)];
        }
        if ok {
          status := Ok;
        }
      }
    }

    method Flush() returns (status: Status)
      modifies this`log
      ensures status == Ok || status == BlockDeviceError
      ensures status == Ok ==> log == old(log) + [Op.Flush]
      ensures status != Ok ==> log == old(log)
      ensures reliable ==> status == Ok
    {
      var ok: bool := *;
      ok := ok || reliable;
      status := if ok then Ok else BlockDeviceError;
      if ok {
        log := log + [Op.Flush];
      }
    }
  }
}
