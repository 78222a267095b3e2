/**
 Sector writes carried out one at a time, each flushed before the next one
 starts, and what a power cut can leave of them.
 */
module KuroPlan {
  import opened KuroDisk

  ghost predicate AllWrites(plan: seq<Op>) {
    forall i :: 0 <= i < |plan| ==> plan[i].Write?
  }

  /** Each write of the plan followed by its flush. */
  function Steps(plan: seq<Op>): (r: seq<Op>)
    ensures |r| == 2 * |plan|
  {
    if plan == [] then [] else Steps(plan[..|plan| - 1]) + [plan[|plan| - 1], Flush]
  }

  /** ops is how far the plan got before the first failure; done if there was none. */
  ghost predicate Ran(plan: seq<Op>, ops: seq<Op>, done: bool) {
    ops <= Steps(plan) && (done ==> ops == Steps(plan))
  }

  lemma {:induction false} StepsConcat(a: seq<Op>, b: seq<Op>)
    ensures Steps(a + b) == Steps(a) + Steps(b)
  {
    if b == [] {
      assert a + b == a;
    } else {
      assert (a + b)[..|a + b| - 1] == a + b[..|b| - 1];
      StepsConcat(a, b[..|b| - 1]);
    }
  }

  lemma RanMore(a: seq<Op>, ops: seq<Op>, b: seq<Op>, more: seq<Op>, done: bool)
    requires Ran(a, ops, true) && Ran(b, more, done)
    ensures Ran(a + b, ops + more, done)
  {
    StepsConcat(a, b);
  }

  lemma RanPart(a: seq<Op>, ops: seq<Op>, b: seq<Op>)
    requires Ran(a, ops, false)
    ensures Ran(a + b, ops, false)
  {
    StepsConcat(a, b);
  }

  lemma {:induction false} StepsSettled(plan: seq<Op>)
    ensures Settled(Steps(plan)) && (plan != [] ==> Flushed(Steps(plan)))
  {
  }

  lemma {:induction false} StepsApply(d: Disk, plan: seq<Op>)
    ensures Apply(d, Steps(plan)) == Apply(d, plan)
  {
    if plan != [] {
      var rest, w := plan[..|plan| - 1], plan[|plan| - 1];
      StepsApply(d, rest);
      ApplyConcat(d, Steps(rest), [w, Flush]);
      ApplyTwo(Apply(d, Steps(rest)), w);
    }
  }

  lemma ApplyTwo(d: Disk, w: Op)
    ensures Apply(d, [w]) == ApplyOp(d, w) && Apply(d, [w, Flush]) == ApplyOp(d, w)
  {
    assert [w, Flush][..1] == [w];
    assert [w][..0] == [];
  }

  lemma ApplyHead(d: Disk, plan: seq<Op>, i: nat)
    requires 0 < i <= |plan|
    ensures Apply(d, plan[..i]) == Apply(ApplyOp(d, plan[0]), plan[1..][..i - 1])
  {
    assert plan[..i] == [plan[0]] + plan[1..][..i - 1];
    ApplyConcat(d, [plan[0]], plan[1..][..i - 1]);
    ApplyTwo(d, plan[0]);
  }

  lemma TwoStates(d: Disk, v: Op, w: Op, i: nat)
    requires i <= 2
    ensures Apply(d, [v, w][..i]) == if i == 0 then d else if i == 1 then ApplyOp(d, v) else ApplyOp(ApplyOp(d, v), w)
  {
    assert [v, w][..1] == [v] && [v, w][..2] == [v, w];
    ApplyTwo(d, v);
    assert [v] + [w] == [v, w];
    ApplyOneMore(d, [v], w);
  }

  lemma PlanSplit(d: Disk, a: seq<Op>, b: seq<Op>, i: nat)
    requires i <= |a + b|
    ensures Apply(d, (a + b)[..i]) == if i <= |a| then Apply(d, a[..i]) else Apply(Apply(d, a), b[..i - |a|])
  {
    if i <= |a| {
      assert (a + b)[..i] == a[..i];
    } else {
      assert (a + b)[..i] == a + b[..i - |a|];
      ApplyConcat(d, a, b[..i - |a|]);
    }
  }

  /** What a power cut during the plan leaves is the effect of its first few writes. */
  lemma {:induction false} PlanCut(d0: Disk, plan: seq<Op>, ops: seq<Op>, d: Disk) returns (i: nat)
    requires AllWrites(plan) && ops <= Steps(plan) && CanCrashTo(d0, ops, d)
    ensures i <= |plan| && d == Apply(d0, plan[..i])
    decreases |plan|
  {
    if plan == [] {
      i := 0;
    } else {
      var rest, w := plan[..|plan| - 1], plan[|plan| - 1];
      var before := Steps(rest);
      if |ops| <= |before| {
        assert ops <= before;
        i := PlanCut(d0, rest, ops, d);
        assert rest[..i] == plan[..i];
      } else {
        LastWrite(d0, rest, w, ops, d);
        i := if d == Apply(d0, rest) then |plan| - 1 else |plan|;
        assert plan[..|plan|] == plan && plan[..|plan| - 1] == rest;
      }
    }
  }

  lemma LastWrite(d0: Disk, rest: seq<Op>, w: Op, ops: seq<Op>, d: Disk)
    requires w.Write? && Steps(rest) < ops <= Steps(rest) + [w, Flush] && CanCrashTo(d0, ops, d)
    ensures d == Apply(d0, rest) || d == ApplyOp(Apply(d0, rest), w)
  {
    hide Apply, ApplyOp, CanCrashTo;
    var before := Steps(rest);
    var tail := ops[|before|..];
    assert ops == before + tail && (tail == [w] || tail == [w, Flush]);
    StepsSettled(rest);
    CrashAfterFlush(d0, before, tail, d);
    StepsApply(d0, rest);
    assert tail[..|tail|] == tail;
    CrashPointOneWrite(Apply(d0, rest), w, tail, d);
  }

  /** A cut at any moment of the plan. */
  lemma PlanCrashPoint(d0: Disk, plan: seq<Op>, ops: seq<Op>, d: Disk) returns (i: nat)
    requires AllWrites(plan) && ops <= Steps(plan) && CrashPoint(d0, ops, d)
    ensures i <= |plan| && d == Apply(d0, plan[..i])
  {
    var k :| 0 <= k <= |ops| && CanCrashTo(d0, ops[..k], d);
    i := PlanCut(d0, plan, ops[..k], d);
  }

  /** A plan that stopped has flushed some of its writes, and at most one more is waiting. */
  lemma {:induction false} RanTail(plan: seq<Op>, ops: seq<Op>)
    requires ops <= Steps(plan)
    ensures
      var i := |ops| / 2;
      && i <= |plan| && (|ops| % 2 == 0 ==> ops == Steps(plan[..i]))
      && (|ops| % 2 == 1 ==> i < |plan| && ops == Steps(plan[..i]) + [plan[i]])
    decreases |plan|
  {
    if plan != [] {
      var rest := plan[..|plan| - 1];
      assert plan[..|plan|] == plan;
      if |ops| <= 2 * |rest| {
        assert ops <= Steps(rest);
        RanTail(rest, ops);
        assert rest[..|ops| / 2] == plan[..|ops| / 2];
      }
    }
  }

  lemma StepsHead(plan: seq<Op>)
    requires plan != []
    ensures Steps(plan) == [plan[0], Flush] + Steps(plan[1..])
  {
    assert plan == [plan[0]] + plan[1..];
    StepsConcat([plan[0]], plan[1..]);
  }

  lemma PlanTail(plan: seq<Op>, ops: seq<Op>)
    requires plan != [] && ops <= Steps(plan) && |ops| >= 2
    ensures ops[2..] <= Steps(plan[1..])
  {
    StepsHead(plan);
    assert Steps(plan)[2..] == Steps(plan[1..]);
  }

  /** What the device holds after part of a plan is the state after its first few writes. */
  lemma RanNow(d: Disk, plan: seq<Op>, q: seq<Op>, i: nat, m: nat)
    requires q <= Steps(plan) && i == |q| / 2 && m == i + |q| % 2
    ensures m <= |plan| && Apply(d, q) == Apply(d, plan[..m])
  {
    hide Apply, Steps;
    RanTail(plan, q);
    StepsApply(d, plan[..i]);
    if m == i + 1 {
      var w, rest := plan[i], plan[..i];
      ApplyOneMore(d, Steps(rest), w);
      ApplyOneMore(d, rest, w);
      assert rest + [w] == plan[..m];
    }
  }
}
