/**
 Whole runs of allocation and release calls on one volume, with device failures
 inside the calls and power cuts followed by remounts between them.
 */
module KuroAllocRun {
  import opened KuroDisk
  import opened KuroBitmap
  import opened KuroAlloc
  import opened KuroRelease

  /** The contents at the last power-up, everything accepted since, and every extent handed out and not given back. */
  datatype State = State(base: Disk, log: seq<Op>, issued: seq<Extent>)
  {
    function Now(): Disk {
      Apply(base, log)
    }
  }

  datatype Event =
    | Allocate(ops: seq<Op>, result: Result<Extent>)
    | Release(index: nat, ops: seq<Op>)
    | PowerCut(survivor: Disk)

  ghost predicate Enabled(g: Geometry, s: State, e: Event) {
    match e
    case Allocate(ops, result) => AllocateSpec(g, s.Now(), ops, result)
    case Release(index, ops) =>
      index < |s.issued| &&
      ClearOps(g, s.Now(), ops, s.issued[index].first, s.issued[index].first + s.issued[index].count)
    case PowerCut(survivor) => CanCrashTo(s.base, s.log, survivor)
  }

  function Without(issued: seq<Extent>, index: nat): seq<Extent> {
    if index < |issued| then issued[..index] + issued[index + 1..] else issued
  }

  /** An extent counts as given back whether its release succeeds or not. */
  function Next(s: State, e: Event): State {
    match e
    case Allocate(ops, result) =>
      State(s.base, s.log + ops, if result.Success? then s.issued + [result.value] else s.issued)
    case Release(index, ops) => State(s.base, s.log + ops, Without(s.issued, index))
    case PowerCut(survivor) => State(survivor, [], s.issued)
  }

  ghost predicate IsRun(g: Geometry, s: State, events: seq<Event>)
    decreases |events|
  {
    events == [] || (Enabled(g, s, events[0]) && IsRun(g, Next(s, events[0]), events[1..]))
  }

  function Final(s: State, events: seq<Event>): State
    decreases |events|
  {
    if events == [] then s else Final(Next(s, events[0]), events[1..])
  }

  predicate Disjoint(a: Extent, b: Extent) {
    a.first + a.count <= b.first || b.first + b.count <= a.first
  }

  /** Every issued extent lies in the data area and its bits are set in d. */
  ghost predicate Held(g: Geometry, d: Disk, issued: seq<Extent>) {
    && |d| == g.totalBlocks
    && forall i :: 0 <= i < |issued| ==>
         && issued[i].count > 0
         && g.dataStart <= issued[i].first
         && issued[i].first + issued[i].count <= g.totalBlocks
         && AllAllocated(g, d, issued[i].first, issued[i].count)
  }

  ghost predicate PairwiseDisjoint(issued: seq<Extent>) {
    forall i, j :: 0 <= i < j < |issued| ==> Disjoint(issued[i], issued[j])
  }

  ghost predicate Safe(g: Geometry, s: State) {
    && g.Valid(|s.base|)
    && PairwiseDisjoint(s.issued)
    && forall d: Disk :: CanCrashTo(s.base, s.log, d) ==> Held(g, d, s.issued)
  }

  lemma GrowOpHolds(g: Geometry, d0: Disk, issued: seq<Extent>, d: Disk, op: Op)
    requires g.Valid(|d0|)
    requires Held(g, d0, issued) && Held(g, d, issued)
    requires GrowOp(g, d0, op)
    ensures Held(g, ApplyOp(d, op), issued)
  {
    var e := ApplyOp(d, op);
    forall i, y | 0 <= i < |issued| && issued[i].first <= y < issued[i].first + issued[i].count
      ensures Allocated(g, e, y)
    {
      BitmapIndex(g, y);
      assert Allocated(g, d0, y) && Allocated(g, d, y);
    }
  }

  lemma AllocateKeepsSafe(g: Geometry, s: State, ops: seq<Op>, result: Result<Extent>)
    requires Safe(g, s)
    requires AllocateSpec(g, s.Now(), ops, result)
    ensures Safe(g, Next(s, Allocate(ops, result)))
  {
    var d0, s' := s.Now(), Next(s, Allocate(ops, result));
    NowIsCrashState(s.base, s.log);
    assert Held(g, d0, s.issued);
    var P := (e: Disk) => Held(g, e, s.issued);
    forall e: Disk, i | 0 <= i < |ops| && P(e) ensures P(ApplyOp(e, ops[i])) {
      GrowOpHolds(g, d0, s.issued, e, ops[i]);
    }
    forall d: Disk | CanCrashTo(s'.base, s'.log, d) ensures Held(g, d, s'.issued) {
      CrashInvariantFrom(s.base, s.log, ops, P, d);
      if result.Success? {
        FlushedIsNow(s.base, s.log, ops, d);
        NewExtentHeld(g, d, s.issued, result.value);
      }
    }
    if result.Success? {
      NewExtentDisjoint(g, d0, s.issued, result.value);
    }
  }

  lemma FlushedIsNow(base: Disk, log: seq<Op>, ops: seq<Op>, d: Disk)
    requires ops != [] && Settled(ops)
    requires CanCrashTo(base, log + ops, d)
    ensures d == Apply(Apply(base, log), ops)
  {
    var rest := ops[..|ops| - 1];
    assert (log + ops)[..|log + ops| - 1] == log + rest;
    ApplyConcat(base, log, rest);
  }

  lemma NewExtentHeld(g: Geometry, d: Disk, issued: seq<Extent>, e: Extent)
    requires Held(g, d, issued)
    requires e.count > 0 && g.dataStart <= e.first && e.first + e.count <= g.totalBlocks
    requires AllAllocated(g, d, e.first, e.count)
    ensures Held(g, d, issued + [e])
  {
  }

  lemma NewExtentDisjoint(g: Geometry, d: Disk, issued: seq<Extent>, e: Extent)
    requires Held(g, d, issued) && PairwiseDisjoint(issued)
    requires e.count > 0 && FreeRun(g, d, e.first, e.count)
    ensures PairwiseDisjoint(issued + [e])
  {
    forall i | 0 <= i < |issued| ensures Disjoint(issued[i], e) {
      var y := if issued[i].first < e.first then e.first else issued[i].first;
      assert issued[i].first <= y < issued[i].first + issued[i].count ==> Allocated(g, d, y);
      assert e.first <= y < e.first + e.count ==> !Allocated(g, d, y);
    }
  }

  /** What a release clears is no block of an extent it does not meet. */
  lemma ClearOpHolds(g: Geometry, d0: Disk, issued: seq<Extent>, d: Disk, op: Op, first: nat, last: nat)
    requires g.Valid(|d0|) && Held(g, d0, issued) && Held(g, d, issued) && ClearOp(g, d0, op, first, last)
    requires forall i :: 0 <= i < |issued| ==> last <= issued[i].first || issued[i].first + issued[i].count <= first
    ensures Held(g, ApplyOp(d, op), issued)
  {
    hide SectorBit;
    var e := ApplyOp(d, op);
    forall i, y | 0 <= i < |issued| && issued[i].first <= y < issued[i].first + issued[i].count
      ensures Allocated(g, e, y)
    {
      BitmapIndex(g, y);
      assert Allocated(g, d0, y) && Allocated(g, d, y);
    }
  }

  lemma WithoutAt(issued: seq<Extent>, index: nat, i: nat)
    requires index < |issued| && i < |Without(issued, index)|
    ensures Without(issued, index)[i] == issued[if i < index then i else i + 1]
  {
  }

  lemma FewerHeld(g: Geometry, d: Disk, issued: seq<Extent>, index: nat)
    requires Held(g, d, issued) && index < |issued|
    ensures Held(g, d, Without(issued, index))
  {
    hide AllAllocated, Without;
    WithoutLength(issued, index);
    forall i | 0 <= i < |Without(issued, index)|
      ensures Without(issued, index)[i] == issued[if i < index then i else i + 1]
    {
      WithoutAt(issued, index, i);
    }
  }

  lemma WithoutLength(issued: seq<Extent>, index: nat)
    requires index < |issued|
    ensures |Without(issued, index)| == |issued| - 1
  {
  }

  /** Giving an extent back, however far that gets, leaves every other one disjoint and marked. */
  lemma ReleaseKeepsSafe(g: Geometry, s: State, index: nat, ops: seq<Op>)
    requires Safe(g, s) && Enabled(g, s, Release(index, ops))
    ensures Safe(g, Next(s, Release(index, ops)))
  {
    hide AllAllocated, CanCrashTo, ClearOp, Apply, Without;
    var d0, rest, x := s.Now(), Without(s.issued, index), s.issued[index];
    WithoutLength(s.issued, index);
    forall i | 0 <= i < |rest| ensures rest[i] == s.issued[if i < index then i else i + 1] {
      WithoutAt(s.issued, index, i);
    }
    NowIsCrashState(s.base, s.log);
    var P := (e: Disk) => Held(g, e, rest);
    forall e: Disk | CanCrashTo(s.base, s.log, e) ensures P(e) {
      FewerHeld(g, e, s.issued, index);
    }
    assert Held(g, d0, rest);
    hide Held;
    forall e: Disk, i | 0 <= i < |ops| && P(e) ensures P(ApplyOp(e, ops[i])) {
      ClearOpHolds(g, d0, rest, e, ops[i], x.first, x.first + x.count);
    }
    forall d: Disk | CanCrashTo(s.base, s.log + ops, d) ensures Held(g, d, rest) {
      CrashInvariantFrom(s.base, s.log, ops, P, d);
    }
  }

  /**
   No double issue. In every run, whatever reads, writes and flushes fail and wherever power is cut,
   the extents handed out by successful calls and not given back are pairwise disjoint, lie in the data
   area, and are recorded as allocated in every state the device can come back in.
   */
  lemma {:induction false} NoDoubleIssue(g: Geometry, s: State, events: seq<Event>)
    requires Safe(g, s)
    requires IsRun(g, s, events)
    ensures Safe(g, Final(s, events))
    decreases |events|
  {
    if events != [] {
      var e := events[0];
      match e {
        case Allocate(ops, result) => AllocateKeepsSafe(g, s, ops, result);
        case Release(index, ops) => ReleaseKeepsSafe(g, s, index, ops);
        case PowerCut(survivor) =>
          assert Held(g, survivor, s.issued);
      }
      NoDoubleIssue(g, Next(s, e), events[1..]);
    }
  }

  /** A freshly powered-up volume with nothing handed out satisfies the run invariant. */
  lemma PoweredUpIsSafe(g: Geometry, d: Disk)
    requires g.Valid(|d|)
    ensures Safe(g, State(d, [], []))
  {
  }

  /** Every image that can survive has the block's bit set. */
  ghost predicate SetForGood(g: Geometry, s: State, y: nat) {
    && g.Valid(|s.base|) && y < g.totalBlocks
    && forall d: Disk :: CanCrashTo(s.base, s.log, d) ==> |d| == |s.base| && Allocated(g, d, y)
  }

  lemma GrowOpKeepsBit(g: Geometry, d0: Disk, d: Disk, op: Op, y: nat)
    requires g.Valid(|d0|) && |d| == |d0| && y < g.totalBlocks && GrowOp(g, d0, op)
    requires Allocated(g, d0, y) && Allocated(g, d, y)
    ensures |ApplyOp(d, op)| == |d| && Allocated(g, ApplyOp(d, op), y)
  {
    BitmapIndex(g, y);
  }

  lemma ClearOpKeepsBit(g: Geometry, d0: Disk, d: Disk, op: Op, first: nat, last: nat, y: nat)
    requires g.Valid(|d0|) && |d| == |d0| && y < g.totalBlocks && ClearOp(g, d0, op, first, last)
    requires Allocated(g, d0, y) && Allocated(g, d, y) && !(first <= y < last)
    ensures |ApplyOp(d, op)| == |d| && Allocated(g, ApplyOp(d, op), y)
  {
    BitmapIndex(g, y);
  }

  /** The event gives back an extent that holds the block. */
  predicate GivesBack(s: State, e: Event, y: nat) {
    && e.Release? && e.index < |s.issued|
    && s.issued[e.index].first <= y < s.issued[e.index].first + s.issued[e.index].count
  }

  lemma EventKeepsBit(g: Geometry, s: State, e: Event, y: nat)
    requires SetForGood(g, s, y) && Enabled(g, s, e) && !GivesBack(s, e, y)
    ensures SetForGood(g, Next(s, e), y)
  {
    hide Allocated, ClearOp, GrowOp;
    if !e.PowerCut? {
      var d0 := s.Now();
      NowIsCrashState(s.base, s.log);
      var P := (d: Disk) => |d| == |d0| && Allocated(g, d, y);
      forall d: Disk, i | 0 <= i < |e.ops| && P(d) ensures P(ApplyOp(d, e.ops[i])) {
        if e.Allocate? {
          GrowOpKeepsBit(g, d0, d, e.ops[i], y);
        } else {
          var x := s.issued[e.index];
          ClearOpKeepsBit(g, d0, d, e.ops[i], x.first, x.first + x.count, y);
        }
      }
      forall d: Disk | CanCrashTo(s.base, s.log + e.ops, d) ensures |d| == |s.base| && Allocated(g, d, y) {
        CrashInvariantFrom(s.base, s.log, e.ops, P, d);
      }
    }
  }

  /** Some event of the run gives back an extent that holds the block. */
  predicate EverGivenBack(s: State, events: seq<Event>, y: nat)
    decreases |events|
  {
    events != [] && (GivesBack(s, events[0], y) || EverGivenBack(Next(s, events[0]), events[1..], y))
  }

  /** An allocation bit that no power cut can lose is set in every image until its extent is given back. */
  lemma {:induction false} BitsStaySet(g: Geometry, s: State, events: seq<Event>, y: nat)
    requires SetForGood(g, s, y) && IsRun(g, s, events) && !EverGivenBack(s, events, y)
    ensures SetForGood(g, Final(s, events), y)
    decreases |events|
  {
    hide SetForGood, Enabled, GivesBack;
    if events != [] {
      EventKeepsBit(g, s, events[0], y);
      BitsStaySet(g, Next(s, events[0]), events[1..], y);
    }
  }
}
