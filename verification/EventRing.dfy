/**
 The diagnostic event ring: many writers and a reader over 64 slots, each slot
 protected by a guard word. Every shared access is one step of the machine; a
 record is copied cell by cell on both sides.
 */
module EventRing {

  const CAPACITY: nat := 64

  /** Seven scalar fields, 24 subsystem characters and 96 message characters; cell 0 is the sequence number. */
  const CELLS: nat := 127

  type Cells = s: seq<int> | |s| == CELLS witness seq(CELLS, _ => 0)

  // ----- Guards -----

  /** (sequence << 1) | 1 */
  function WritingGuard(sequence: nat): nat {
    2 * sequence + 1
  }

  /** (sequence << 1) | 2 */
  function CompleteGuard(sequence: nat): nat {
    if sequence % 2 == 0 then 2 * sequence + 2 else 2 * sequence
  }

  /** Two sequences share a complete guard exactly when they are an even number and its successor. */
  lemma CompleteGuardCollisions(s: nat, t: nat)
    ensures CompleteGuard(s) == CompleteGuard(t) <==> s / 2 == t / 2
  {
  }

  /** Within one slot, guards identify the sequence and the phase. */
  lemma GuardsIdentify(s: nat, t: nat)
    requires s % CAPACITY == t % CAPACITY
    ensures CompleteGuard(s) == CompleteGuard(t) ==> s == t
    ensures WritingGuard(s) == WritingGuard(t) ==> s == t
    ensures WritingGuard(s) != CompleteGuard(t) && CompleteGuard(s) != 0
  {
  }

  // ----- The machine -----

  datatype Slot = Slot(guard: nat, cells: Cells)

  /** progress 0: sequence taken; k + 1: writing guard stored and k cells written. */
  datatype Writer = Writer(event: Cells, progress: nat)

  datatype Reader =
    | Idle
    | Check(start: nat, end: nat, at: nat, output: seq<Cells>)
    | Copy(start: nat, end: nat, at: nat, output: seq<Cells>, copied: seq<int>)

  datatype State = State(
    next: nat,
    slots: seq<Slot>,
    writers: map<nat, Writer>,
    recorded: map<int, Cells>,     // the arguments of every record call, by sequence
    reader: Reader)

  datatype Step =
    | Take(fields: seq<int>)                // fetch-add of the sequence counter
    | Begin(sequence: nat)                  // store the writing guard
    | WriteCell(sequence: nat)
    | Complete(sequence: nat)               // store the complete guard
    | StartRead(capacity: nat)              // load the sequence counter
    | LoadBefore                            // first guard load for one sequence
    | CopyCell
    | LoadAfter                             // second guard load and the sequence comparison

  function Initial(): State {
    State(0, seq(CAPACITY, _ => Slot(0, seq(CELLS, _ => 0))), map[], map[], Idle)
  }

  predicate Enabled(s: State, step: Step) {
    match step
    case Take(fields) => |fields| == CELLS - 1
    case Begin(w) => w in s.writers && s.writers[w].progress == 0
    case WriteCell(w) => w in s.writers && 0 < s.writers[w].progress <= CELLS
    case Complete(w) => w in s.writers && s.writers[w].progress == CELLS + 1
    case StartRead(capacity) => capacity > 0
    case LoadBefore => s.reader.Check? && s.reader.at < s.reader.end
    case CopyCell => s.reader.Copy? && |s.reader.copied| < CELLS
    case LoadAfter => s.reader.Copy? && |s.reader.copied| == CELLS
  }

  function Min(a: nat, b: nat): nat {
    if a < b then a else b
  }

  function Home(s: State, sequence: nat): Slot
    requires |s.slots| == CAPACITY
  {
    s.slots[sequence % CAPACITY]
  }

  function Next(s: State, step: Step): State
    requires |s.slots| == CAPACITY && Enabled(s, step)
  {
    match step
    case Take(fields) =>
      var event: Cells := [s.next] + fields;
      s.(next := s.next + 1, writers := s.writers[s.next := Writer(event, 0)], recorded := s.recorded[s.next := event])
    case Begin(w) =>
      s.(slots := s.slots[w % CAPACITY := Home(s, w).(guard := WritingGuard(w))],
         writers := s.writers[w := s.writers[w].(progress := 1)])
    case WriteCell(w) =>
      var k := s.writers[w].progress - 1;
      s.(slots := s.slots[w % CAPACITY := Home(s, w).(cells := Home(s, w).cells[k := s.writers[w].event[k]])],
         writers := s.writers[w := s.writers[w].(progress := k + 2)])
    case Complete(w) =>
      s.(slots := s.slots[w % CAPACITY := Home(s, w).(guard := CompleteGuard(w))], writers := s.writers - {w})
    case StartRead(capacity) =>
      var available := Min(Min(s.next, CAPACITY), capacity);
      s.(reader := Check(s.next - available, s.next, s.next - available, []))
    case LoadBefore =>
      var r := s.reader;
      if Home(s, r.at).guard != CompleteGuard(r.at)
      then s.(reader := Check(r.start, r.end, r.at + 1, r.output))
      else s.(reader := Copy(r.start, r.end, r.at, r.output, []))
    case CopyCell =>
      var r := s.reader;
      s.(reader := r.(copied := r.copied + [Home(s, r.at).cells[|r.copied|]]))
    case LoadAfter =>
      var r := s.reader;
      if Home(s, r.at).guard != CompleteGuard(r.at) || r.copied[0] != r.at
      then s.(reader := Check(r.start, r.end, r.at + 1, r.output))
      else s.(reader := Check(r.start, r.end, r.at + 1, r.output + [r.copied]))
  }

  // ----- Invariant -----

  predicate Busy(s: State, w: nat) {
    w in s.writers && s.writers[w].progress > 0
  }

  ghost predicate Recorded(s: State) {
    && |s.slots| == CAPACITY
    && (forall q :: q in s.recorded <==> 0 <= q < s.next)
    && (forall q :: q in s.recorded ==> s.recorded[q][0] == q)
    && (forall w :: w in s.writers ==>
          w in s.recorded && s.writers[w].event == s.recorded[w] && s.writers[w].progress <= CELLS + 1)
  }

  /** A slot being written carries the writing guard of its one writer and the cells written so far. */
  ghost predicate BusySlots(s: State)
    requires Recorded(s)
  {
    && (forall v: nat, w: nat :: Busy(s, v) && Busy(s, w) && v % CAPACITY == w % CAPACITY ==> v == w)
    && (forall w: nat :: Busy(s, w) ==>
          && Home(s, w).guard == WritingGuard(w)
          && forall k :: 0 <= k < s.writers[w].progress - 1 ==> Home(s, w).cells[k] == s.recorded[w][k])
  }

  /** A slot whose guard is complete for a sequence of that slot holds exactly that record, finished. */
  ghost predicate CompleteSlots(s: State)
    requires Recorded(s)
  {
    forall q: nat :: Home(s, q).guard == CompleteGuard(q) ==>
      q in s.recorded && q !in s.writers && Home(s, q).cells == s.recorded[q]
  }

  /** Everything returned so far is a record exactly as it was made, in strictly increasing order. */
  ghost predicate Faithful(recorded: map<int, Cells>, output: seq<Cells>, start: nat, at: nat) {
    && (forall i :: 0 <= i < |output| ==>
          && start <= output[i][0] < at
          && output[i][0] in recorded && output[i] == recorded[output[i][0]])
    && (forall i, j :: 0 <= i < j < |output| ==> output[i][0] < output[j][0])
  }

  ghost predicate ReaderSound(s: State)
    requires Recorded(s)
  {
    match s.reader
    case Idle => true
    case Check(start, end, at, output) => start <= at <= end <= s.next && Faithful(s.recorded, output, start, at)
    case Copy(start, end, at, output, copied) =>
      && start <= at < end <= s.next && Faithful(s.recorded, output, start, at)
      && |copied| <= CELLS && at !in s.writers
      && (Home(s, at).guard == CompleteGuard(at) ==> copied == s.recorded[at][..|copied|])
  }

  ghost predicate Inv(s: State) {
    Recorded(s) && BusySlots(s) && CompleteSlots(s) && ReaderSound(s)
  }

  /** No record begins on a slot that another one is still writing. */
  predicate Exclusive(s: State, step: Step) {
    step.Begin? ==> forall w :: w in s.writers && w % CAPACITY == step.sequence % CAPACITY ==> !Busy(s, w)
  }

  lemma InitialInv()
    ensures Inv(Initial())
  {
  }

  lemma StepKeepsInv(s: State, step: Step)
    requires Inv(s) && Enabled(s, step) && Exclusive(s, step)
    ensures Inv(Next(s, step))
  {
    hide BusySlots, CompleteSlots;
    match step {
      case Take(fields) => TakeKeepsInv(s, fields);
      case Begin(w) => BeginKeepsInv(s, w);
      case WriteCell(w) => WriteCellKeepsInv(s, w);
      case Complete(w) => CompleteKeepsInv(s, w);
      case StartRead(capacity) => ReaderMoves(s, Next(s, step));
      case LoadBefore => LoadBeforeKeepsInv(s);
      case CopyCell => CopyCellKeepsInv(s);
      case LoadAfter => LoadAfterKeepsInv(s);
    }
  }

  /** The reader shares nothing with the writers but what it reads. */
  lemma ReaderMoves(s: State, t: State)
    requires Inv(s) && t == s.(reader := t.reader) && Recorded(t) && ReaderSound(t)
    ensures Inv(t)
  {
  }

  lemma LoadBeforeKeepsInv(s: State)
    requires Inv(s) && Enabled(s, LoadBefore)
    ensures Inv(Next(s, LoadBefore))
  {
    var r := s.reader;
    if Home(s, r.at).guard == CompleteGuard(r.at) {
      assert r.at !in s.writers;
    }
    hide BusySlots, CompleteSlots;
    ReaderMoves(s, Next(s, LoadBefore));
  }

  lemma TakeKeepsInv(s: State, fields: seq<int>)
    requires Inv(s) && Enabled(s, Take(fields))
    ensures Inv(Next(s, Take(fields)))
  {
    var t := Next(s, Take(fields));
    assert forall w: nat :: Busy(t, w) ==> Busy(s, w);
    forall q: nat | Home(t, q).guard == CompleteGuard(q)
      ensures q in t.recorded && q !in t.writers && Home(t, q).cells == t.recorded[q]
    {
      assert Home(s, q).guard == CompleteGuard(q);
    }
  }

  lemma BeginKeepsInv(s: State, b: nat)
    requires Inv(s) && Enabled(s, Begin(b)) && Exclusive(s, Begin(b))
    ensures Inv(Next(s, Begin(b)))
  {
    var t := Next(s, Begin(b));
    forall w: nat | Busy(t, w) && w % CAPACITY == b % CAPACITY ensures w == b {
      assert w != b ==> Busy(s, w);
    }
    forall q: nat | Home(t, q).guard == CompleteGuard(q)
      ensures q in t.recorded && q !in t.writers && Home(t, q).cells == t.recorded[q]
    {
      if q % CAPACITY == b % CAPACITY {
        GuardsIdentify(b, q);
      } else {
        assert Home(s, q).guard == CompleteGuard(q);
      }
    }
    if s.reader.Copy? && s.reader.at % CAPACITY == b % CAPACITY {
      GuardsIdentify(b, s.reader.at);
    }
  }

  lemma WriteCellKeepsInv(s: State, b: nat)
    requires Inv(s) && Enabled(s, WriteCell(b))
    ensures Inv(Next(s, WriteCell(b)))
  {
    var t := Next(s, WriteCell(b));
    WriteCellBusy(s, b);
    assert Busy(s, b);
    forall q: nat | Home(t, q).guard == CompleteGuard(q)
      ensures q in t.recorded && q !in t.writers && Home(t, q).cells == t.recorded[q]
    {
      assert Home(s, q).guard == CompleteGuard(q);
      if q % CAPACITY == b % CAPACITY {
        GuardsIdentify(b, q);
      }
    }
    if s.reader.Copy? && s.reader.at % CAPACITY == b % CAPACITY {
      GuardsIdentify(b, s.reader.at);
    }
  }

  lemma WriteCellBusy(s: State, b: nat)
    requires Recorded(s) && BusySlots(s) && Enabled(s, WriteCell(b))
    ensures Recorded(Next(s, WriteCell(b))) && BusySlots(Next(s, WriteCell(b)))
  {
    var t := Next(s, WriteCell(b));
    assert Busy(s, b);
    forall w: nat | Busy(t, w)
      ensures Busy(s, w) && (w % CAPACITY == b % CAPACITY ==> w == b)
      ensures Home(t, w).guard == WritingGuard(w)
      ensures forall k :: 0 <= k < t.writers[w].progress - 1 ==> Home(t, w).cells[k] == t.recorded[w][k]
    {
      assert Busy(s, w);
    }
  }

  lemma CompleteKeepsInv(s: State, b: nat)
    requires Inv(s) && Enabled(s, Complete(b))
    ensures Inv(Next(s, Complete(b)))
  {
    var t := Next(s, Complete(b));
    assert Busy(s, b);
    assert Home(s, b).cells == s.recorded[b];
    forall w: nat | Busy(t, w) ensures Busy(s, w) && w % CAPACITY != b % CAPACITY {
    }
    forall q: nat | Home(t, q).guard == CompleteGuard(q)
      ensures q in t.recorded && q !in t.writers && Home(t, q).cells == t.recorded[q]
    {
      if q % CAPACITY == b % CAPACITY {
        GuardsIdentify(b, q);
      } else {
        assert Home(s, q).guard == CompleteGuard(q);
      }
    }
    if s.reader.Copy? && s.reader.at % CAPACITY == b % CAPACITY {
      GuardsIdentify(b, s.reader.at);
    }
  }

  lemma CopyCellKeepsInv(s: State)
    requires Inv(s) && Enabled(s, CopyCell)
    ensures Inv(Next(s, CopyCell))
  {
    var r, t := s.reader, Next(s, CopyCell);
    if Home(s, r.at).guard == CompleteGuard(r.at) {
      assert Home(s, r.at).cells == s.recorded[r.at];
      assert t.reader.copied == s.recorded[r.at][..|r.copied| + 1];
    }
  }

  lemma LoadAfterKeepsInv(s: State)
    requires Inv(s) && Enabled(s, LoadAfter)
    ensures Inv(Next(s, LoadAfter))
  {
    var r := s.reader;
    if Home(s, r.at).guard == CompleteGuard(r.at) {
      assert s.recorded[r.at][..CELLS] == s.recorded[r.at];
    }
  }

  // ----- Runs -----

  /** States[i + 1] follows from states[i] by steps[i]. */
  ghost predicate IsRun(states: seq<State>, steps: seq<Step>) {
    && |states| == |steps| + 1
    && forall i :: 0 <= i < |steps| ==>
         && |states[i].slots| == CAPACITY
         && Enabled(states[i], steps[i]) && states[i + 1] == Next(states[i], steps[i])
  }

  ghost predicate NeverOverlapping(states: seq<State>, steps: seq<Step>)
    requires |states| == |steps| + 1
  {
    forall i :: 0 <= i < |steps| ==> Exclusive(states[i], steps[i])
  }

  lemma {:induction false} RunKeepsInv(states: seq<State>, steps: seq<Step>, n: nat)
    requires IsRun(states, steps) && NeverOverlapping(states, steps)
    requires states[0] == Initial() && n <= |steps|
    ensures Inv(states[n])
  {
    if n == 0 {
      InitialInv();
    } else {
      RunKeepsInv(states, steps, n - 1);
      StepKeepsInv(states[n - 1], steps[n - 1]);
    }
  }

  /**
   Seqlock safety. In every interleaving in which no slot is written by two records at once, each
   event the reader has accepted equals, cell for cell, the arguments of the record call with that
   sequence, and the accepted sequences strictly increase.
   */
  lemma ReaderNeverTorn(states: seq<State>, steps: seq<Step>, n: nat)
    requires IsRun(states, steps) && NeverOverlapping(states, steps)
    requires states[0] == Initial() && n <= |steps|
    ensures !states[n].reader.Idle? ==>
      Faithful(states[n].recorded, states[n].reader.output, states[n].reader.start, states[n].reader.end)
  {
    RunKeepsInv(states, steps, n);
  }

  // ----- What a quiet ring holds -----

  /** No record begins on a slot before every earlier record of that slot is complete. */
  predicate InOrder(s: State, step: Step) {
    step.Begin? ==> forall w :: w in s.writers && w % CAPACITY == step.sequence % CAPACITY ==> w >= step.sequence
  }

  predicate Completed(s: State, q: nat) {
    q in s.recorded && q !in s.writers
  }

  predicate Begun(s: State, q: nat) {
    q in s.recorded && (q !in s.writers || Busy(s, q))
  }

  /** Per slot, records begin one after the other, and the newest completed one stays until the next begins. */
  ghost predicate Ordered(s: State) {
    && Recorded(s)
    && (forall q: nat :: Begun(s, q + CAPACITY) ==> Completed(s, q))
    && (forall q: nat :: Completed(s, q) && !Begun(s, q + CAPACITY) ==> Home(s, q).guard == CompleteGuard(q))
  }

  lemma {:induction false} EarlierCompleted(s: State, q: nat, later: nat)
    requires Ordered(s) && Begun(s, later) && q < later && q % CAPACITY == later % CAPACITY
    ensures Completed(s, q)
    decreases later - q
  {
    var previous := later - CAPACITY;
    assert Begun(s, previous + CAPACITY);
    assert Completed(s, previous);
    if q < previous {
      EarlierCompleted(s, q, previous);
    }
  }

  lemma OrderedIsExclusive(s: State, step: Step)
    requires Ordered(s) && Enabled(s, step) && InOrder(s, step)
    ensures Exclusive(s, step)
  {
    if step.Begin? {
      forall w | w in s.writers && w % CAPACITY == step.sequence % CAPACITY ensures !Busy(s, w) {
        if Busy(s, w) {
          EarlierCompleted(s, step.sequence, w);
        }
      }
    }
  }

  lemma OrderedTransfer(s: State, t: State)
    requires Ordered(s) && Recorded(t)
    requires forall q: nat :: Begun(t, q) <==> Begun(s, q)
    requires forall q: nat :: Completed(t, q) <==> Completed(s, q)
    requires forall i :: 0 <= i < CAPACITY ==> t.slots[i].guard == s.slots[i].guard
    ensures Ordered(t)
  {
  }

  lemma StepKeepsOrdered(s: State, step: Step)
    requires Ordered(s) && Enabled(s, step) && InOrder(s, step) && Recorded(Next(s, step))
    ensures Ordered(Next(s, step))
  {
    match step {
      case Begin(b) => BeginKeepsOrdered(s, b);
      case Complete(b) => CompleteKeepsOrdered(s, b);
      case Take(_) => OrderedTransfer(s, Next(s, step));
      case WriteCell(_) => OrderedTransfer(s, Next(s, step));
      case _ =>
        assert Next(s, step) == s.(reader := Next(s, step).reader);
        OrderedTransfer(s, Next(s, step));
    }
  }

  /** The only newest record a beginning writer can displace is its predecessor on the slot. */
  lemma DisplacesPredecessor(s: State, b: nat, q: nat)
    requires Ordered(s) && Enabled(s, Begin(b)) && InOrder(s, Begin(b))
    requires q % CAPACITY == b % CAPACITY && Completed(s, q) && !Begun(s, q + CAPACITY)
    ensures q + CAPACITY == b
  {
    hide Home, CompleteGuard;
    NextRound(q, b);
    assert q + CAPACITY < b ==> q + CAPACITY in s.recorded;
    if q > b {
      EarlierCompleted(s, b, q);
    }
  }

  /** Two records of one slot are whole rounds apart. */
  lemma NextRound(q: nat, b: nat)
    requires q % CAPACITY == b % CAPACITY
    ensures (q + CAPACITY) % CAPACITY == b % CAPACITY
    ensures q < b ==> q + CAPACITY <= b
  {
  }

  lemma BeginKeepsOrdered(s: State, b: nat)
    requires Ordered(s) && Enabled(s, Begin(b)) && InOrder(s, Begin(b)) && Recorded(Next(s, Begin(b)))
    ensures Ordered(Next(s, Begin(b)))
  {
    var t := Next(s, Begin(b));
    assert forall q: nat :: Completed(t, q) <==> Completed(s, q);
    assert forall q: nat :: Begun(t, q) <==> Begun(s, q) || q == b;
    forall q: nat | Begun(t, q + CAPACITY) ensures Completed(t, q) {
      assert q + CAPACITY == b ==> q in s.recorded && q % CAPACITY == b % CAPACITY;
    }
    forall q: nat | Completed(t, q) && !Begun(t, q + CAPACITY) ensures Home(t, q).guard == CompleteGuard(q) {
      if q % CAPACITY == b % CAPACITY {
        DisplacesPredecessor(s, b, q);
      }
    }
  }

  /** A finishing writer is the newest record of its slot. */
  lemma FinisherIsNewest(s: State, b: nat, q: nat)
    requires Ordered(s) && Enabled(s, Complete(b))
    requires q % CAPACITY == b % CAPACITY && (Completed(s, q) || q == b) && !Begun(s, q + CAPACITY)
    ensures q == b
  {
    assert Begun(s, b) && !Completed(s, b);
    hide Ordered, Recorded;
    NextRound(q, b);
    if q > b {
      EarlierCompleted(s, b, q);
    } else if q + CAPACITY < b {
      EarlierCompleted(s, q + CAPACITY, b);
    }
  }

  lemma CompleteKeepsOrdered(s: State, b: nat)
    requires Ordered(s) && Enabled(s, Complete(b)) && Recorded(Next(s, Complete(b)))
    ensures Ordered(Next(s, Complete(b)))
  {
    var t := Next(s, Complete(b));
    assert forall q: nat :: Completed(t, q) <==> Completed(s, q) || q == b;
    assert forall q: nat :: Begun(t, q) <==> Begun(s, q);
    forall q: nat | Completed(t, q) && !Begun(t, q + CAPACITY) ensures Home(t, q).guard == CompleteGuard(q) {
      if q % CAPACITY == b % CAPACITY {
        FinisherIsNewest(s, b, q);
      }
    }
  }

  lemma {:induction false} RunKeepsOrdered(states: seq<State>, steps: seq<Step>, n: nat)
    requires IsRun(states, steps) && (forall i :: 0 <= i < |steps| ==> InOrder(states[i], steps[i]))
    requires states[0] == Initial() && n <= |steps|
    ensures Inv(states[n]) && Ordered(states[n])
  {
    if n == 0 {
      InitialInv();
    } else {
      RunKeepsOrdered(states, steps, n - 1);
      OrderedIsExclusive(states[n - 1], steps[n - 1]);
      StepKeepsInv(states[n - 1], steps[n - 1]);
      StepKeepsOrdered(states[n - 1], steps[n - 1]);
    }
  }

  /** The newest records, up to the capacity, are all in place under their complete guards. */
  ghost predicate Holds(slots: seq<Slot>, next: nat, recorded: map<int, Cells>) {
    && |slots| == CAPACITY
    && forall q: nat :: q < next <= q + CAPACITY ==>
         q in recorded && recorded[q][0] == q && slots[q % CAPACITY] == Slot(CompleteGuard(q), recorded[q])
  }

  /** With nobody writing, the ring holds exactly the newest records. */
  lemma QuietRingHoldsNewest(states: seq<State>, steps: seq<Step>, n: nat)
    requires IsRun(states, steps) && (forall i :: 0 <= i < |steps| ==> InOrder(states[i], steps[i]))
    requires states[0] == Initial() && n <= |steps|
    requires states[n].writers == map[]
    ensures Holds(states[n].slots, states[n].next, states[n].recorded)
  {
    RunKeepsOrdered(states, steps, n);
    var s := states[n];
    forall q: nat | q < s.next <= q + CAPACITY
      ensures q in s.recorded && s.recorded[q][0] == q && s.slots[q % CAPACITY] == Slot(CompleteGuard(q), s.recorded[q])
    {
      assert Completed(s, q) && !Begun(s, q + CAPACITY);
      assert Home(s, q).guard == CompleteGuard(q);
    }
  }

  /** The records start .. end in order. */
  ghost function Slice(recorded: map<int, Cells>, start: nat, end: nat): (r: seq<Cells>)
    requires start <= end && forall q :: start <= q < end ==> q in recorded
    ensures |r| == end - start
  {
    seq(end - start, i requires 0 <= i < end - start => recorded[start + i])
  }

  /** The reader on a quiet ring: exactly the last min(recorded, 64, capacity) records, oldest first. */
  method CopyRecent(slots: array<Slot>, next: nat, capacity: nat, ghost recorded: map<int, Cells>)
    returns (output: seq<Cells>)
    requires Holds(slots[..], next, recorded)
    ensures |output| == Min(Min(next, CAPACITY), capacity)
    ensures output == Slice(recorded, next - |output|, next)
  {
    output := [];
    if capacity == 0 {
      return;
    }
    var available := Min(Min(next, CAPACITY), capacity);
    var start := next - available;
    var sequence := start;
    while sequence < next
      invariant start <= sequence <= next
      invariant output == Slice(recorded, start, sequence)
    {
      var expected := CompleteGuard(sequence);
      var slot := slots[..][sequence % CAPACITY];
      if slot.guard == expected {
        var candidate := slot.cells;
        if slot.guard == expected && candidate[0] == sequence {
          output := output + [candidate];
        }
      }
      sequence := sequence + 1;
    }
  }

  // ----- Why overlapping writers must be excluded -----

  predicate CanExec(s: State, steps: seq<Step>)
    decreases |steps|
  {
    && |s.slots| == CAPACITY
    && (steps == [] || (Enabled(s, steps[0]) && CanExec(Next(s, steps[0]), steps[1..])))
  }

  function Exec(s: State, steps: seq<Step>): State
    requires CanExec(s, steps)
    decreases |steps|
  {
    if steps == [] then s else Exec(Next(s, steps[0]), steps[1..])
  }

  lemma {:induction false} ExecConcat(s: State, a: seq<Step>, b: seq<Step>)
    requires CanExec(s, a) && CanExec(Exec(s, a), b)
    ensures CanExec(s, a + b) && Exec(s, a + b) == Exec(Exec(s, a), b)
    decreases |a|
  {
    if a == [] {
      assert a + b == b;
    } else {
      assert (a + b)[1..] == a[1..] + b;
      ExecConcat(Next(s, a[0]), a[1..], b);
    }
  }

  lemma ExecOne(s: State, step: Step)
    requires |s.slots| == CAPACITY && Enabled(s, step)
    ensures CanExec(s, [step]) && Exec(s, [step]) == Next(s, step)
  {
  }

  function Repeat(step: Step, n: nat): (r: seq<Step>)
    ensures |r| == n
  {
    if n == 0 then [] else [step] + Repeat(step, n - 1)
  }

  /** A writer that has stored its guard writes all remaining cells. */
  lemma {:induction false} WritesRest(s: State, b: nat, n: nat)
    requires |s.slots| == CAPACITY && b in s.writers
    requires s.writers[b].progress == CELLS + 1 - n && 0 < s.writers[b].progress
    ensures CanExec(s, Repeat(WriteCell(b), n))
    ensures
      var t, k := Exec(s, Repeat(WriteCell(b), n)), CELLS - n;
      t == s.(slots := s.slots[b % CAPACITY := Home(s, b).(cells := Home(s, b).cells[..k] + s.writers[b].event[k..])],
              writers := s.writers[b := s.writers[b].(progress := CELLS + 1)])
    decreases n
  {
    var steps, k := Repeat(WriteCell(b), n), CELLS - n;
    if n == 0 {
      assert Home(s, b).cells[..k] + s.writers[b].event[k..] == Home(s, b).cells;
      assert s.slots[b % CAPACITY := Home(s, b)] == s.slots;
      assert s.writers[b := s.writers[b]] == s.writers;
    } else {
      var s1 := Next(s, WriteCell(b));
      assert steps[1..] == Repeat(WriteCell(b), n - 1);
      WritesRest(s1, b, n - 1);
      assert Home(s1, b).cells[..k + 1] + s.writers[b].event[k + 1..]
          == Home(s, b).cells[..k] + s.writers[b].event[k..];
    }
  }

  /** A reader past its first guard check copies all remaining cells. */
  lemma {:induction false} CopiesRest(s: State, n: nat)
    requires |s.slots| == CAPACITY && s.reader.Copy? && |s.reader.copied| == CELLS - n && n <= CELLS
    ensures CanExec(s, Repeat(CopyCell, n))
    ensures Exec(s, Repeat(CopyCell, n))
         == s.(reader := s.reader.(copied := s.reader.copied + Home(s, s.reader.at).cells[CELLS - n..]))
    decreases n
  {
    var cells := Home(s, s.reader.at).cells;
    if n == 0 {
      assert s.reader.copied + cells[CELLS..] == s.reader.copied;
    } else {
      var s1 := Next(s, CopyCell);
      assert Repeat(CopyCell, n)[1..] == Repeat(CopyCell, n - 1);
      CopiesRest(s1, n - 1);
      assert s1.reader.copied + cells[CELLS - n + 1..] == s.reader.copied + cells[CELLS - n..];
    }
  }

  /** The lapping record completes on a slot that is still half written, then the lapped one goes on. */
  function LapSteps(a: nat, b: nat): seq<Step> {
    [Begin(b)] + Repeat(WriteCell(b), CELLS) + [Complete(b), WriteCell(a), StartRead(1), LoadBefore]
  }

  lemma LapExec(s: State, a: nat, b: nat)
    requires |s.slots| == CAPACITY && a in s.writers && b in s.writers && a != b && a % CAPACITY == b % CAPACITY
    requires 1 < s.writers[a].progress <= CELLS && s.writers[b].progress == 0 && b + 1 == s.next
    ensures CanExec(s, LapSteps(a, b))
    ensures
      var t, k := Exec(s, LapSteps(a, b)), s.writers[a].progress - 1;
      && |t.slots| == CAPACITY
      && t.reader == Copy(b, b + 1, b, [], [])
      && Home(t, b) == Slot(CompleteGuard(b), s.writers[b].event[k := s.writers[a].event[k]])
  {
    var first, middle := [Begin(b)], Repeat(WriteCell(b), CELLS);
    var last := [Complete(b), WriteCell(a), StartRead(1), LoadBefore];
    var s1 := Next(s, Begin(b));
    assert Exec(s, first) == s1 by { assert first[1..] == []; }
    WritesRest(s1, b, CELLS);
    var s2 := Exec(s1, middle);
    assert Home(s1, b).cells[..0] + s.writers[b].event[0..] == s.writers[b].event;
    ExecConcat(s, first, middle);
    LapTail(s2, a, b);
    ExecConcat(s, first + middle, last);
    assert first + middle + last == LapSteps(a, b);
  }

  lemma LapTail(s: State, a: nat, b: nat)
    requires |s.slots| == CAPACITY && a in s.writers && b in s.writers && a != b && a % CAPACITY == b % CAPACITY
    requires 1 < s.writers[a].progress <= CELLS && s.writers[b].progress == CELLS + 1 && b + 1 == s.next
    ensures
      var steps, k := [Complete(b), WriteCell(a), StartRead(1), LoadBefore], s.writers[a].progress - 1;
      && CanExec(s, steps)
      && |Exec(s, steps).slots| == CAPACITY
      && Exec(s, steps).reader == Copy(b, b + 1, b, [], [])
      && Home(Exec(s, steps), b) == Slot(CompleteGuard(b), Home(s, b).cells[k := s.writers[a].event[k]])
  {
    var steps := [Complete(b), WriteCell(a), StartRead(1), LoadBefore];
    var s1 := Next(s, steps[0]);
    var s2 := Next(s1, steps[1]);
    var s3 := Next(s2, steps[2]);
    var s4 := Next(s3, steps[3]);
    assert steps[1..] == [steps[1], steps[2], steps[3]];
    assert steps[1..][1..] == [steps[2], steps[3]];
    assert steps[1..][1..][1..] == [steps[3]];
    assert steps[1..][1..][1..][1..] == [];
    assert CanExec(s4, []) && Exec(s4, []) == s4;
    assert CanExec(s3, [steps[3]]) && Exec(s3, [steps[3]]) == s4;
    assert CanExec(s2, [steps[2], steps[3]]) && Exec(s2, [steps[2], steps[3]]) == s4;
    assert CanExec(s1, steps[1..]) && Exec(s1, steps[1..]) == s4;
  }

  /**
   Whenever the newest record starts on a slot that an older record has half written, some
   continuation makes the reader accept an event that nobody recorded.
   */
  lemma LappedSlotTears(s: State, a: nat, b: nat)
    requires |s.slots| == CAPACITY && a in s.writers && b in s.writers && a != b && a % CAPACITY == b % CAPACITY
    requires 1 < s.writers[a].progress <= CELLS && s.writers[b].progress == 0 && b + 1 == s.next
    requires s.writers[b].event[0] == b
    requires s.writers[a].event[s.writers[a].progress - 1] != s.writers[b].event[s.writers[a].progress - 1]
    ensures exists steps, torn: Cells ::
      && CanExec(s, steps)
      && Exec(s, steps).reader == Check(b, b + 1, b + 1, [torn])
      && torn[0] == b && torn != s.writers[b].event
  {
    hide Exec, CanExec, Repeat, LapSteps;
    var k := s.writers[a].progress - 1;
    var torn: Cells := s.writers[b].event[k := s.writers[a].event[k]];
    LapExec(s, a, b);
    var t := Exec(s, LapSteps(a, b));
    CopiesRest(t, CELLS);
    var u := Exec(t, Repeat(CopyCell, CELLS));
    assert [] + Home(t, b).cells[0..] == torn;
    ExecOne(u, LoadAfter);
    ExecConcat(s, LapSteps(a, b), Repeat(CopyCell, CELLS));
    ExecConcat(s, LapSteps(a, b) + Repeat(CopyCell, CELLS), [LoadAfter]);
    assert torn[k] != s.writers[b].event[k];
  }

  /** The record calls with these arguments have taken their sequence numbers and written nothing yet. */
  ghost predicate AllTaken(s: State, calls: seq<seq<int>>) {
    && |s.slots| == CAPACITY && s.next == |calls|
    && forall i :: 0 <= i < |calls| ==>
         |calls[i]| == CELLS - 1 && i in s.writers && s.writers[i] == Writer([i] + calls[i], 0)
  }

  lemma {:induction false} TakeAll(calls: seq<seq<int>>) returns (steps: seq<Step>)
    requires forall i :: 0 <= i < |calls| ==> |calls[i]| == CELLS - 1
    ensures CanExec(Initial(), steps) && AllTaken(Exec(Initial(), steps), calls)
  {
    if calls == [] {
      steps := [];
    } else {
      var n := |calls| - 1;
      var first := TakeAll(calls[..n]);
      var s := Exec(Initial(), first);
      ExecOne(s, Take(calls[n]));
      ExecConcat(Initial(), first, [Take(calls[n])]);
      steps := first + [Take(calls[n])];
    }
  }

  /**
   Such a continuation is reached from the empty ring: whenever a record call is
   overtaken by 64 later ones after writing its first cell, and differs from the
   last of them in the next one, the reader can return an event nobody recorded.
   */
  lemma TornReadReached(calls: seq<seq<int>>)
    requires |calls| == CAPACITY + 1 && forall i :: 0 <= i < |calls| ==> |calls[i]| == CELLS - 1
    requires calls[0][0] != calls[CAPACITY][0]
    ensures exists steps, torn: Cells ::
      && CanExec(Initial(), steps)
      && Exec(Initial(), steps).reader == Check(CAPACITY, CAPACITY + 1, CAPACITY + 1, [torn])
      && forall i :: 0 <= i < |calls| ==> torn != [i] + calls[i]
  {
    hide Exec, CanExec;
    var taken := TakeAll(calls);
    var s := Exec(Initial(), taken);
    ExecOne(s, Begin(0));
    var s1 := Next(s, Begin(0));
    ExecOne(s1, WriteCell(0));
    var s2 := Next(s1, WriteCell(0));
    ExecConcat(Initial(), taken, [Begin(0)]);
    ExecConcat(Initial(), taken + [Begin(0)], [WriteCell(0)]);
    LappedSlotTears(s2, 0, CAPACITY);
    var rest, torn: Cells :|
      CanExec(s2, rest) && Exec(s2, rest).reader == Check(CAPACITY, CAPACITY + 1, CAPACITY + 1, [torn])
      && torn[0] == CAPACITY && torn != s2.writers[CAPACITY].event;
    ExecConcat(Initial(), taken + [Begin(0)] + [WriteCell(0)], rest);
  }

  // ----- The ring without interleaving -----

  /** The first capacity - 1 characters of text, padded with NUL to the full capacity. */
  function Bounded(text: seq<char>, capacity: nat): (r: seq<char>)
    requires capacity > 0
    ensures |r| == capacity && r[capacity - 1] == '\0'
  {
    var kept := Min(|text|, capacity - 1);
    text[..kept] + seq(capacity - kept, _ => '\0')
  }

  /** Copies a C string (without its terminator) into a fixed field; a missing one reads "(null)". */
  method CopyBounded(destination: array<char>, present: bool, text: seq<char>)
    requires '\0' !in text
    modifies destination
    ensures destination.Length > 0 ==>
      destination[..] == Bounded(if present then text else "(null)", destination.Length)
  {
    var capacity := destination.Length;
    if capacity == 0 {
      return;
    }
    var source := if present then text else "(null)";
    var index := 0;
    while index + 1 < capacity && index < |source|
      invariant 0 <= index <= |source| && index < capacity
      invariant destination[..index] == source[..index]
    {
      destination[index] := source[index];
      index := index + 1;
    }
    ghost var kept := index;
    destination[index] := '\0';
    index := index + 1;
    while index < capacity
      invariant kept < index <= capacity
      invariant destination[..kept] == source[..kept]
      invariant forall k :: kept <= k < index ==> destination[k] == '\0'
    {
      destination[index] := '\0';
      index := index + 1;
    }
    assert kept == Min(|source|, capacity - 1);
    assert destination[..] == destination[..kept] + destination[kept..];
  }

  ghost function History(events: seq<Cells>): map<int, Cells> {
    map q | 0 <= q < |events| :: events[q]
  }

  class Ring {
    const slots: array<Slot>
    var next: nat
    ghost var events: seq<Cells>

    ghost predicate Valid()
      reads this, slots
    {
      && slots.Length == CAPACITY
      && next == |events|
      && Holds(slots[..], next, History(events))
    }

    constructor ()
      ensures Valid() && fresh(slots) && events == []
    {
      slots := new Slot[CAPACITY](_ => Slot(0, seq(CELLS, _ => 0)));
      next, events := 0, [];
    }

    /** One record call that is not interrupted. */
    method Record(fields: seq<int>)
      requires Valid() && |fields| == CELLS - 1
      modifies this, slots
      ensures Valid()
      ensures events == old(events) + [[old(next)] + fields]
    {
      hide Holds;
      var sequence := next;
      next := next + 1;
      var event: Cells := [sequence] + fields;
      var i := sequence % CAPACITY;
      ghost var before := slots[..];
      slots[i] := slots[i].(guard := WritingGuard(sequence));
      var k := 0;
      while k < CELLS
        modifies slots
        invariant 0 <= k <= CELLS
        invariant slots[i].cells[..k] == event[..k]
        invariant forall j :: 0 <= j < CAPACITY && j != i ==> slots[j] == before[j]
      {
        slots[i] := slots[i].(cells := slots[i].cells[k := event[k]]);
        k := k + 1;
      }
      assert slots[i].cells == event by {
        assert slots[i].cells[..CELLS] == slots[i].cells && event[..CELLS] == event;
      }
      slots[i] := slots[i].(guard := CompleteGuard(sequence));
      events := events + [event];
      assert events[..sequence] == old(events);
      RecordedHolds(before, slots[..], events, sequence);
    }
  }

  lemma RecordedHolds(before: seq<Slot>, after: seq<Slot>, events: seq<Cells>, sequence: nat)
    requires |events| == sequence + 1 && events[sequence][0] == sequence
    requires Holds(before, sequence, History(events[..sequence])) && |after| == CAPACITY
    requires after[sequence % CAPACITY] == Slot(CompleteGuard(sequence), events[sequence])
    requires forall j :: 0 <= j < CAPACITY && j != sequence % CAPACITY ==> after[j] == before[j]
    ensures Holds(after, sequence + 1, History(events))
  {
    forall q: nat | q < sequence + 1 <= q + CAPACITY
      ensures events[q][0] == q && after[q % CAPACITY] == Slot(CompleteGuard(q), events[q])
    {
      if q < sequence {
        assert q % CAPACITY != sequence % CAPACITY;
        assert before[q % CAPACITY] == Slot(CompleteGuard(q), History(events[..sequence])[q]);
      }
    }
  }
}
