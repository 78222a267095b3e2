/**
 What a settled move means for the whole volume: the tree of directories with one
 entry hung elsewhere, and every check of mounting passed again.
 */
module KuroMoveTree {
  import opened Bytes
  import opened KuroDisk
  import opened KuroBitmap
  import opened KuroExtent
  import opened KuroInode
  import opened KuroDirectory
  import opened KuroDirFrame
  import opened KuroAppendOp
  import opened KuroVersion
  import opened KuroOwner
  import opened KuroTree
  import opened KuroCheck
  import opened KuroMoveState
  import opened KuroMovePrepare
  import opened KuroMove
  import opened KuroMoveFrame

  function Source(j: Job, after: bool): Version {
    if after then j.src1 else j.src0
  }

  function Destination(j: Job, after: bool): Version {
    if after then j.dst1 else j.dst0
  }

  /**
   d is the healthy volume d0 with the move j settled, undone or done, and nothing else changed.
   */
  ghost predicate Outcome(g: Geometry, crc: Checksum, d0: Disk, d: Disk, j: Job, r: Request, after: bool)
    requires g.Valid(|d0|)
  {
    && Healthy(g, crc, d0) && Describes(g, crc, d0, j, r) && JobShape(g, j) && Sane(g, j)
    && Secluded(g, crc, d0, j) && Frame(g, crc, d0, d, j) && |d| == |d0| && Consistent(g, crc, d, j, after)
  }

  // ----- What each directory lists -----

  /** Every directory but the two parents reads as before. */
  ghost predicate ViewsKept(g: Geometry, crc: Checksum, d0: Disk, d: Disk, j: Job)
    requires g.Valid(|d0|) && |d| == |d0|
  {
    forall id: U64 :: id != j.src0.inode.id && id != j.dst0.inode.id ==>
      SameView(View(g, crc, d0, id), View(g, crc, d, id))
  }

  predicate SameView(a: Result<seq<Entry>>, b: Result<seq<Entry>>) {
    (a.Success? <==> b.Success?) && (a.Success? ==> a.value == b.value)
  }

  lemma OtherView(g: Geometry, crc: Checksum, d0: Disk, d: Disk, j: Job, id: U64)
    requires g.Valid(|d0|) && |d| == |d0| && Healthy(g, crc, d0) && Frame(g, crc, d0, d, j)
    requires id != j.src0.inode.id && id != j.dst0.inode.id
    ensures SameView(View(g, crc, d0, id), View(g, crc, d, id))
  {
    hide InodeAt, SlotAt, SameChildren, Carries, View, InodeExtentStatus, GoodParent, Unshared;
    assert SlotAt(g, crc, d, id) == SlotAt(g, crc, d0, id);
    var slot := SlotAt(g, crc, d0, id);
    if slot.Success? && slot.value.kind == DIRECTORY {
      SlotSound(g, crc, d0, id);
      var v := ViewCarried(g, crc, d0, slot.value);
      CarriedView(g, crc, d, v);
    } else {
      NoView(g, crc, d0, id);
      NoView(g, crc, d, id);
    }
  }

  lemma SlotSound(g: Geometry, crc: Checksum, d: Disk, id: U64)
    requires g.Valid(|d|) && Healthy(g, crc, d) && SlotAt(g, crc, d, id).Success?
    ensures
      var i := SlotAt(g, crc, d, id).value;
      && i.id == id && 0 < id <= g.inodeCount && InodeAt(g, crc, d, id) == Success(i)
      && GoodInode(g, crc, d, id, i) && Owns(g, d, i)
      && (i.kind == DIRECTORY ==> Sound(g, crc, d, i))
  {
    hide InodeAt, SlotAt, View, AllAllocated, GoodParent, Unshared;
    StoredIsAcceptable(g, crc, d, id);
    assert GoodSlot(g, crc, d, id);
  }

  lemma NoView(g: Geometry, crc: Checksum, d: Disk, id: U64)
    requires g.Valid(|d|)
    requires !(InodeAt(g, crc, d, id).Success? && InodeAt(g, crc, d, id).value.kind == DIRECTORY)
    ensures View(g, crc, d, id).Failure?
  {
    hide InodeAt, EntriesUpTo;
  }

  lemma OutcomeViews(g: Geometry, crc: Checksum, d0: Disk, d: Disk, j: Job, r: Request, after: bool)
    requires g.Valid(|d0|) && |d| == |d0| && Outcome(g, crc, d0, d, j, r, after)
    ensures ViewsKept(g, crc, d0, d, j)
    ensures View(g, crc, d0, j.src0.inode.id) == Success(j.src0.list)
    ensures View(g, crc, d0, j.dst0.inode.id) == Success(j.dst0.list)
    ensures View(g, crc, d, j.src0.inode.id) == Success(Source(j, after).list)
    ensures View(g, crc, d, j.dst0.inode.id) == Success(Destination(j, after).list)
  {
    hide InodeAt, View, Healthy, Frame, Carries, DisjointExtents, MayMove, Sane, Secluded;
    forall id: U64 | id != j.src0.inode.id && id != j.dst0.inode.id
      ensures SameView(View(g, crc, d0, id), View(g, crc, d, id))
    {
      OtherView(g, crc, d0, d, j, id);
    }
    CarriedView(g, crc, d, Source(j, after));
    CarriedView(g, crc, d, Destination(j, after));
  }

  // ----- The two lists of a move -----

  lemma WithoutChild(entries: seq<Entry>, k: nat, x: U64)
    requires k < |entries| && Once(entries, entries[k].inodeId)
    ensures
      var rest := WithoutEntry(entries, k);
      && (HasChild(rest, x) <==> HasChild(entries, x) && x != entries[k].inodeId)
      && (Once(entries, x) ==> Once(rest, x))
  {
    var rest := WithoutEntry(entries, k);
    assert forall i :: 0 <= i < |rest| ==> rest[i] == entries[if i < k then i else i + 1];
    if HasChild(entries, x) && x != entries[k].inodeId {
      var i :| 0 <= i < |entries| && entries[i].inodeId == x;
      assert rest[if i < k then i else i - 1].inodeId == x;
    }
  }

  lemma WithChild(entries: seq<Entry>, e: Entry, x: U64)
    ensures
      var more := entries + [e];
      && (HasChild(more, x) <==> HasChild(entries, x) || x == e.inodeId)
      && (Once(entries, x) && !(x == e.inodeId && HasChild(entries, x)) ==> Once(more, x))
  {
    ChildMore(entries, e, x);
  }

  lemma {:induction false} WithoutGood(entries: seq<Entry>, k: nat, id: U64)
    requires k < |entries| && GoodList(entries, id)
    ensures GoodList(WithoutEntry(entries, k), id)
  {
    var rest := WithoutEntry(entries, k);
    assert forall i :: 0 <= i < |rest| ==> rest[i] == entries[if i < k then i else i + 1];
  }

  lemma WithGood(entries: seq<Entry>, e: Entry, id: U64)
    requires GoodList(entries, id) && e.inodeId != ROOT && e.inodeId != id
    requires !HasChild(entries, e.inodeId) && !Named(entries, e.name)
    ensures GoodList(entries + [e], id)
  {
  }

  /** What the two parents list after the move, by what they listed before. */
  lemma MovedLists(g: Geometry, crc: Checksum, d0: Disk, j: Job, r: Request, x: U64)
    requires g.Valid(|d0|) && Healthy(g, crc, d0) && Describes(g, crc, d0, j, r)
    ensures HasChild(j.src1.list, x) <==> HasChild(j.src0.list, x) && x != j.childId
    ensures HasChild(j.dst1.list, x) <==> HasChild(j.dst0.list, x) || x == j.childId
    ensures Once(j.src0.list, x) ==> Once(j.src1.list, x)
    ensures Once(j.dst0.list, x) ==> Once(j.dst1.list, x)
    ensures !HasChild(j.dst0.list, j.childId) && HasChild(j.src0.list, j.childId)
  {
    hide InodeAt, View, Healthy, HasChild, Once, LastPosition, WithoutEntry, NameStatus, DirectoryStatus, MayHold;
    ListedByBoth(g, crc, d0, j, r);
    WithoutChild(j.src0.list, LastPosition(j.src0.list, r.sourceName), x);
    WithChild(j.dst0.list, MovedEntry(g, crc, d0, r).(name := r.destinationName), x);
  }

  /** The child has one parent, the source, which lists it once; the destination does not. */
  lemma ListedByBoth(g: Geometry, crc: Checksum, d0: Disk, j: Job, r: Request)
    requires g.Valid(|d0|) && Healthy(g, crc, d0) && Describes(g, crc, d0, j, r)
    ensures HasChild(j.src0.list, j.childId) && !HasChild(j.dst0.list, j.childId)
    ensures Once(j.src0.list, j.childId) && Owner(g, crc, d0, j.childId, j.src0.inode.id) && j.childId != ROOT
    ensures InodeAt(g, crc, d0, j.childId).Success?
  {
    hide InodeAt, View, Healthy, Once, NameStatus, DirectoryStatus, MayHold, WithoutEntry;
    assert j.src0.list[LastPosition(j.src0.list, r.sourceName)].inodeId == j.childId;
    hide LastPosition, HasChild;
    ListedOnce(g, crc, d0, j.src0.inode.id, j.src0.inode.id, j.childId);
  }

  // ----- Parents -----

  /** Every inode, but the child if it was moved, has the parent it had. */
  ghost predicate ParentsKept(g: Geometry, crc: Checksum, d0: Disk, d: Disk, j: Job, after: bool)
    requires g.Valid(|d0|) && |d| == |d0|
  {
    && (forall x: U64, p: U64 :: Owner(g, crc, d0, x, p) && !(after && x == j.childId) ==> Owner(g, crc, d, x, p))
    && (forall x: U64 :: Unowned(g, crc, d0, x) && !(after && x == j.childId) ==> Unowned(g, crc, d, x))
  }

  lemma SameLister(g: Geometry, crc: Checksum, d0: Disk, d: Disk, j: Job, r: Request, after: bool, p: U64, x: U64)
    requires g.Valid(|d0|) && |d| == |d0| && Outcome(g, crc, d0, d, j, r, after) && (after ==> x != j.childId)
    ensures Lists(g, crc, d, p, x) <==> Lists(g, crc, d0, p, x)
    ensures Lists(g, crc, d0, p, x) && Once(View(g, crc, d0, p).value, x) ==> Once(View(g, crc, d, p).value, x)
  {
    hide InodeAt, View, HasChild, Once, Healthy, Describes, JobShape, Sane, Secluded, Frame, Consistent;
    OutcomeViews(g, crc, d0, d, j, r, after);
    MovedLists(g, crc, d0, j, r, x);
    if p != j.src0.inode.id && p != j.dst0.inode.id {
      assert SameView(View(g, crc, d0, p), View(g, crc, d, p));
    }
  }

  lemma OutcomeParents(g: Geometry, crc: Checksum, d0: Disk, d: Disk, j: Job, r: Request, after: bool, x: U64)
    requires g.Valid(|d0|) && |d| == |d0| && Outcome(g, crc, d0, d, j, r, after) && (after ==> x != j.childId)
    ensures forall p: U64 :: Owner(g, crc, d0, x, p) ==> Owner(g, crc, d, x, p)
    ensures Unowned(g, crc, d0, x) ==> Unowned(g, crc, d, x)
  {
    hide InodeAt, View, HasChild, Once, Outcome;
    forall p: U64
      ensures Lists(g, crc, d, p, x) <==> Lists(g, crc, d0, p, x)
      ensures Lists(g, crc, d0, p, x) && Once(View(g, crc, d0, p).value, x) ==> Once(View(g, crc, d, p).value, x)
    {
      SameLister(g, crc, d0, d, j, r, after, p, x);
    }
  }

  lemma AllParents(g: Geometry, crc: Checksum, d0: Disk, d: Disk, j: Job, r: Request, after: bool)
    requires g.Valid(|d0|) && |d| == |d0| && Outcome(g, crc, d0, d, j, r, after)
    ensures ParentsKept(g, crc, d0, d, j, after)
  {
    hide Outcome, Owner, Unowned;
    forall x: U64, p: U64 | Owner(g, crc, d0, x, p) && !(after && x == j.childId) ensures Owner(g, crc, d, x, p) {
      OutcomeParents(g, crc, d0, d, j, r, after, x);
    }
    forall x: U64 | Unowned(g, crc, d0, x) && !(after && x == j.childId) ensures Unowned(g, crc, d, x) {
      OutcomeParents(g, crc, d0, d, j, r, after, x);
    }
  }

  /** After the move the child belongs to the destination. */
  lemma ChildOwner(g: Geometry, crc: Checksum, d0: Disk, d: Disk, j: Job, r: Request)
    requires g.Valid(|d0|) && |d| == |d0| && Outcome(g, crc, d0, d, j, r, true)
    ensures Owner(g, crc, d, j.childId, j.dst0.inode.id)
  {
    hide InodeAt, View, HasChild, Healthy, Describes, JobShape, Sane, Secluded, Frame, Consistent;
    OutcomeViews(g, crc, d0, d, j, r, true);
    MovedLists(g, crc, d0, j, r, j.childId);
    ListedByBoth(g, crc, d0, j, r);
    NoChildOnce(j.dst0.list, j.childId);
    forall q: U64 | q != j.src0.inode.id && q != j.dst0.inode.id ensures !Lists(g, crc, d, q, j.childId) {
      assert SameView(View(g, crc, d0, q), View(g, crc, d, q));
      assert !Lists(g, crc, d0, q, j.childId);
    }
  }

  lemma NoChildOnce(entries: seq<Entry>, x: U64)
    requires !HasChild(entries, x)
    ensures Once(entries, x)
  {
  }

  // ----- Ways to the top -----

  lemma LinkKept(g: Geometry, crc: Checksum, d0: Disk, d: Disk, j: Job, after: bool, chain: seq<U64>)
    requires g.Valid(|d0|) && |d| == |d0| && ParentsKept(g, crc, d0, d, j, after) && IsChain(g, crc, d0, chain)
    requires forall i :: 0 <= i < |chain| - 1 ==> !(after && chain[i] == j.childId)
    ensures IsChain(g, crc, d, chain)
  {
    hide Owner, Unowned;
  }

  lemma WayKept(g: Geometry, crc: Checksum, d0: Disk, d: Disk, j: Job, after: bool, x: U64, chain: seq<U64>)
    requires g.Valid(|d0|) && |d| == |d0| && ParentsKept(g, crc, d0, d, j, after)
    requires TopChain(g, crc, d0, x, chain) && (after ==> j.childId !in chain)
    ensures TopChain(g, crc, d, x, chain)
  {
    hide Owner, Unowned;
    LinkKept(g, crc, d0, d, j, after, chain);
  }

  lemma Joined(g: Geometry, crc: Checksum, d: Disk, a: seq<U64>, b: seq<U64>)
    requires g.Valid(|d|) && IsChain(g, crc, d, a) && IsChain(g, crc, d, b)
    requires a[|a| - 1] != ROOT && Owner(g, crc, d, a[|a| - 1], b[0])
    ensures IsChain(g, crc, d, a + b)
  {
    hide Owner;
  }

  lemma FirstMeeting(s: seq<U64>, x: U64) returns (k: nat)
    requires x in s
    ensures k < |s| && s[k] == x && x !in s[..k]
  {
    k := 0;
    while s[k] != x
      invariant k < |s| && x !in s[..k]
      invariant x in s[k..]
      decreases |s| - k
    {
      assert s[..k + 1] == s[..k] + [s[k]] && s[k..] == [s[k]] + s[k + 1..];
      k := k + 1;
    }
  }

  /** A way that led past the child now goes on from the destination. */
  lemma WayMoved(g: Geometry, crc: Checksum, d0: Disk, d: Disk, j: Job, x: U64, chain: seq<U64>, way: seq<U64>)
    requires g.Valid(|d0|) && |d| == |d0| && ParentsKept(g, crc, d0, d, j, true) && j.childId != ROOT
    requires Owner(g, crc, d, j.childId, j.dst0.inode.id)
    requires TopChain(g, crc, d0, x, chain) && j.childId in chain
    requires TopChain(g, crc, d0, j.dst0.inode.id, way) && j.childId !in way
    ensures HasTop(g, crc, d, x)
  {
    hide Owner, Unowned, ParentsKept;
    var k := FirstMeeting(chain, j.childId);
    var a := chain[..k + 1];
    ChainPrefix(g, crc, d0, chain, k + 1);
    assert forall i :: 0 <= i < k ==> chain[i] in chain[..k];
    LinkKept(g, crc, d0, d, j, true, a);
    WayKept(g, crc, d0, d, j, true, j.dst0.inode.id, way);
    Joined(g, crc, d, a, way);
    TopEnds(g, crc, d, a + way);
    assert TopChain(g, crc, d, x, a + way);
  }

  lemma ChainPrefix(g: Geometry, crc: Checksum, d: Disk, chain: seq<U64>, n: nat)
    requires g.Valid(|d|) && IsChain(g, crc, d, chain) && 0 < n <= |chain|
    ensures IsChain(g, crc, d, chain[..n])
  {
    hide Owner;
  }

  /** The destination has a way to the top that does not pass the child. */
  lemma ClearTop(g: Geometry, crc: Checksum, d0: Disk, j: Job, r: Request) returns (way: seq<U64>)
    requires g.Valid(|d0|) && Healthy(g, crc, d0) && Describes(g, crc, d0, j, r)
    ensures TopChain(g, crc, d0, j.dst0.inode.id, way) && j.childId !in way
  {
    hide InodeAt, View, Owner, Unowned, NameStatus, LastPosition, WithoutEntry, SlotAt, GoodSlot, HasChild, Vacant;
    var t := j.dst0.inode.id;
    var child := InodeAt(g, crc, d0, j.childId).value;
    if child.kind == DIRECTORY {
      way :| RootChain(g, crc, d0, t, way) && j.childId !in way;
      RootIsTop(g, crc, d0, t, way);
    } else {
      way := AnyTop(g, crc, d0, t);
      forall i | 0 <= i < |way| ensures way[i] != j.childId {
        if i > 0 {
          assert Owner(g, crc, d0, way[i - 1], way[i]);
          OwnerIsLive(g, crc, d0, way[i - 1], way[i]);
        }
      }
    }
  }

  lemma AnyTop(g: Geometry, crc: Checksum, d: Disk, id: U64) returns (way: seq<U64>)
    requires g.Valid(|d|) && Healthy(g, crc, d)
    requires InodeAt(g, crc, d, id).Success? && InodeAt(g, crc, d, id).value.kind == DIRECTORY
    ensures TopChain(g, crc, d, id, way)
  {
    hide InodeAt, Owner, Unowned, GoodSlot;
    StoredIsAcceptable(g, crc, d, id);
    if id == ROOT {
      way := [ROOT];
    } else {
      assert GoodParent(g, crc, d, id);
      way :| TopChain(g, crc, d, id, way);
    }
  }

  /** Whatever had an end of its way up still has one: a move closes no cycle. */
  lemma MoveKeepsTop(g: Geometry, crc: Checksum, d0: Disk, d: Disk, j: Job, r: Request, after: bool, x: U64)
    requires g.Valid(|d0|) && |d| == |d0| && Outcome(g, crc, d0, d, j, r, after) && HasTop(g, crc, d0, x)
    ensures HasTop(g, crc, d, x)
  {
    hide Outcome, Owner, Unowned, TopChain, ParentsKept;
    var chain :| TopChain(g, crc, d0, x, chain);
    AllParents(g, crc, d0, d, j, r, after);
    if !after || j.childId !in chain {
      WayKept(g, crc, d0, d, j, after, x, chain);
    } else {
      OutcomeFacts(g, crc, d0, d, j, r, after);
      var way := ClearTop(g, crc, d0, j, r);
      ChildOwner(g, crc, d0, d, j, r);
      ListedByBoth(g, crc, d0, j, r);
      WayMoved(g, crc, d0, d, j, x, chain, way);
    }
  }

  lemma OutcomeFacts(g: Geometry, crc: Checksum, d0: Disk, d: Disk, j: Job, r: Request, after: bool)
    requires g.Valid(|d0|) && |d| == |d0| && Outcome(g, crc, d0, d, j, r, after)
    ensures Healthy(g, crc, d0) && Describes(g, crc, d0, j, r) && JobShape(g, j) && Sane(g, j)
    ensures Secluded(g, crc, d0, j) && Frame(g, crc, d0, d, j) && Consistent(g, crc, d, j, after)
  {
    hide Healthy, Describes, JobShape, Sane, Secluded, Frame, Consistent;
  }

  // ----- Health -----

  /** Extents that do not meet do not overlap, if they are inside the volume. */
  lemma NoOverlap(g: Geometry, d: Disk, a: Inode, b: Inode)
    requires g.Valid(|d|) && Owns(g, d, a) && Owns(g, d, b) && DisjointExtents(a, b)
    ensures !ExtentsOverlap(a, b) && !ExtentsOverlap(b, a)
  {
    hide AllAllocated;
  }

  /** A settled parent owns its extent and passes the checks of a single inode. */
  lemma ParentSound(g: Geometry, crc: Checksum, d: Disk, v: Version)
    requires g.Valid(|d|) && Carries(g, crc, d, v) && InodeAt(g, crc, d, v.inode.id) == Success(v.inode)
    requires v.inode.size == 0 ==> Owns(g, d, v.inode)
    requires v.inode.linkCount == 1 && ValidFlags(v.inode.flags)
    ensures Validated(g, d, v.inode) && Owns(g, d, v.inode)
  {
    hide InodeAt, Decoded, Flat, AllAllocated;
    StoredIsAcceptable(g, crc, d, v.inode.id);
  }

  /** Both parents after settling, whichever way: sound, and where the table shows them. */
  lemma ParentsSound(g: Geometry, crc: Checksum, d0: Disk, d: Disk, j: Job, r: Request, after: bool)
    requires g.Valid(|d0|) && |d| == |d0| && Outcome(g, crc, d0, d, j, r, after)
    ensures
      var s, t := Source(j, after).inode, Destination(j, after).inode;
      && s.id == j.src0.inode.id && t.id == j.dst0.inode.id && s.id != t.id
      && InodeAt(g, crc, d, s.id) == Success(s) && InodeAt(g, crc, d, t.id) == Success(t)
      && s.kind == DIRECTORY && t.kind == DIRECTORY
      && s.flags == j.src0.inode.flags && t.flags == j.dst0.inode.flags
      && Validated(g, d, s) && Owns(g, d, s) && Validated(g, d, t) && Owns(g, d, t) && DisjointExtents(s, t)
  {
    hide InodeAt, Carries, Healthy, Describes, Secluded, SlotAt, SameChildren, Validated, AllAllocated, Other;
    var v, w := Source(j, after), Destination(j, after);
    EmptyOwns(g, d, j);
    ParentSound(g, crc, d, v);
    ParentSound(g, crc, d, w);
  }

  lemma EmptyOwns(g: Geometry, d: Disk, j: Job)
    requires Sane(g, j) && JobShape(g, j)
    ensures j.src1.inode.size == 0 ==> Owns(g, d, j.src1.inode)
  {
    hide DisjointExtents;
  }

  lemma OtherSound(g: Geometry, crc: Checksum, d0: Disk, d: Disk, j: Job, r: Request, after: bool, id: U64)
    requires g.Valid(|d0|) && |d| == |d0| && Outcome(g, crc, d0, d, j, r, after)
    requires SlotAt(g, crc, d0, id).Success? && id != j.src0.inode.id && id != j.dst0.inode.id
    ensures
      var i := SlotAt(g, crc, d0, id).value;
      && InodeAt(g, crc, d, id) == Success(i) && Other(g, crc, d0, j, i) && Owns(g, d, i)
      && Validated(g, d, i) && (id == ROOT ==> i.flags == 0)
      && (i.kind == DIRECTORY ==> GoodDirectory(g, crc, d, id))
      && DisjointExtents(i, Source(j, after).inode) && DisjointExtents(i, Destination(j, after).inode)
  {
    hide InodeAt, SlotAt, SameChildren, Carries, View, AllAllocated, Describes, JobShape, Sane, Healthy, Consistent,
         DisjointExtents, Unshared, GoodList;
    SlotSound(g, crc, d0, id);
    assert SlotAt(g, crc, d, id) == SlotAt(g, crc, d0, id);
    OtherView(g, crc, d0, d, j, id);
  }

  lemma StillUnshared(g: Geometry, crc: Checksum, d0: Disk, d: Disk, j: Job, r: Request, after: bool, id: U64, i: Inode)
    requires g.Valid(|d0|) && |d| == |d0| && Outcome(g, crc, d0, d, j, r, after)
    requires InodeAt(g, crc, d, id) == Success(i) && 0 < id <= g.inodeCount
    ensures Unshared(g, crc, d, i, id)
  {
    hide InodeAt, SlotAt, Outcome, Owns, DisjointExtents, ExtentsOverlap, Other, Validated, GoodDirectory;
    ParentsSound(g, crc, d0, d, j, r, after);
    forall k: U64 | id < k && InodeAt(g, crc, d, k).Success?
      ensures !ExtentsOverlap(i, InodeAt(g, crc, d, k).value)
    {
      TwoApart(g, crc, d0, d, j, r, after, id, k);
    }
  }

  /** The slots of all other inodes are those of d0. */
  lemma SlotsKept(g: Geometry, crc: Checksum, d0: Disk, d: Disk, j: Job, r: Request, after: bool, id: U64)
    requires g.Valid(|d0|) && |d| == |d0| && Outcome(g, crc, d0, d, j, r, after)
    requires id != j.src0.inode.id && id != j.dst0.inode.id
    ensures SlotAt(g, crc, d, id) == SlotAt(g, crc, d0, id)
  {
    hide SlotAt, Healthy, Describes, JobShape, Sane, Secluded, Consistent, SameChildren, Owns, Carries, Other;
  }

  lemma TwoApart(g: Geometry, crc: Checksum, d0: Disk, d: Disk, j: Job, r: Request, after: bool, id: U64, k: U64)
    requires g.Valid(|d0|) && |d| == |d0| && Outcome(g, crc, d0, d, j, r, after)
    requires InodeAt(g, crc, d, id).Success? && InodeAt(g, crc, d, k).Success? && id < k
    ensures !ExtentsOverlap(InodeAt(g, crc, d, id).value, InodeAt(g, crc, d, k).value)
  {
    hide InodeAt, SlotAt, Outcome, Owns, DisjointExtents, ExtentsOverlap, Other, Validated, GoodDirectory;
    var a, b := InodeAt(g, crc, d, id).value, InodeAt(g, crc, d, k).value;
    var s, t := j.src0.inode.id, j.dst0.inode.id;
    ParentsSound(g, crc, d0, d, j, r, after);
    if id != s && id != t {
      SlotsKept(g, crc, d0, d, j, r, after, id);
      OtherSound(g, crc, d0, d, j, r, after, id);
    }
    if k != s && k != t {
      SlotsKept(g, crc, d0, d, j, r, after, k);
      OtherSound(g, crc, d0, d, j, r, after, k);
    }
    if id != s && id != t && k != s && k != t {
      assert Healthy(g, crc, d0) by { OutcomeFacts(g, crc, d0, d, j, r, after); }
      BothOther(g, crc, d0, id, k);
    } else {
      MeetsNot(a, b);
      NoOverlap(g, d, a, b);
    }
  }

  lemma MeetsNot(a: Inode, b: Inode)
    ensures DisjointExtents(a, b) <==> DisjointExtents(b, a)
  {
  }

  lemma BothOther(g: Geometry, crc: Checksum, d: Disk, id: U64, k: U64)
    requires g.Valid(|d|) && Healthy(g, crc, d) && SlotAt(g, crc, d, id).Success? && SlotAt(g, crc, d, k).Success?
    requires id < k
    ensures !ExtentsOverlap(SlotAt(g, crc, d, id).value, SlotAt(g, crc, d, k).value)
  {
    hide InodeAt, SlotAt, Healthy, Owns, ExtentsOverlap, Validated, GoodDirectory, Sound;
    SlotSound(g, crc, d, id);
  }

  /** Both parents list what a directory may list. */
  lemma ParentLists(g: Geometry, crc: Checksum, d0: Disk, j: Job, r: Request, after: bool)
    requires g.Valid(|d0|) && Healthy(g, crc, d0) && Describes(g, crc, d0, j, r)
    ensures GoodList(Source(j, after).list, j.src0.inode.id) && GoodList(Destination(j, after).list, j.dst0.inode.id)
  {
    hide InodeAt, View, Healthy, GoodList, LastPosition, WithoutEntry, NameStatus, HasChild, Named, SlotAt, Validated,
         Unshared, Owns, Sound, Owner, Once;
    SlotSound(g, crc, d0, j.src0.inode.id);
    SlotSound(g, crc, d0, j.dst0.inode.id);
    WithoutGood(j.src0.list, LastPosition(j.src0.list, r.sourceName), j.src0.inode.id);
    ListedByBoth(g, crc, d0, j, r);
    NotItself(g, crc, d0, j, r);
    WithGood(j.dst0.list, MovedEntry(g, crc, d0, r).(name := r.destinationName), j.dst0.inode.id);
  }

  lemma NotItself(g: Geometry, crc: Checksum, d0: Disk, j: Job, r: Request)
    requires g.Valid(|d0|) && Healthy(g, crc, d0) && Describes(g, crc, d0, j, r)
    ensures j.childId != j.dst0.inode.id
  {
    hide Healthy, Describes, IsChain, Unowned;
    var way := ClearTop(g, crc, d0, j, r);
    assert way[0] in way by { TopFacts(g, crc, d0, j.dst0.inode.id, way); }
  }

  lemma OutcomeSlot(g: Geometry, crc: Checksum, d0: Disk, d: Disk, j: Job, r: Request, after: bool, id: U64)
    requires g.Valid(|d0|) && |d| == |d0| && Outcome(g, crc, d0, d, j, r, after) && 0 < id <= g.inodeCount
    ensures GoodSlot(g, crc, d, id)
  {
    hide InodeAt, SlotAt, Outcome, Owns, DisjointExtents, Other, Validated, Unshared, View, GoodList, Sound;
    assert Healthy(g, crc, d0) && Describes(g, crc, d0, j, r) by { OutcomeFacts(g, crc, d0, d, j, r, after); }
    hide Healthy, Describes;
    if InodeAt(g, crc, d, id).Success? {
      StillUnshared(g, crc, d0, d, j, r, after, id, InodeAt(g, crc, d, id).value);
    }
    if id == j.src0.inode.id || id == j.dst0.inode.id {
      ParentsSound(g, crc, d0, d, j, r, after);
      OutcomeViews(g, crc, d0, d, j, r, after);
      ParentLists(g, crc, d0, j, r, after);
      RootFlags(g, crc, d0, j, r);
    } else {
      SlotsKept(g, crc, d0, d, j, r, after, id);
      if SlotAt(g, crc, d0, id).Success? {
        OtherSound(g, crc, d0, d, j, r, after, id);
      } else {
        FreeStays(g, crc, d0, id);
      }
    }
  }

  lemma FreeStays(g: Geometry, crc: Checksum, d: Disk, id: U64)
    requires g.Valid(|d|) && Healthy(g, crc, d) && 0 < id <= g.inodeCount && SlotAt(g, crc, d, id).Failure?
    ensures SlotAt(g, crc, d, id) == Failure(NotFound)
  {
    hide SlotAt, GoodParent, InodeAt;
    assert GoodSlot(g, crc, d, id);
  }

  lemma RootFlags(g: Geometry, crc: Checksum, d0: Disk, j: Job, r: Request)
    requires g.Valid(|d0|) && Healthy(g, crc, d0) && Describes(g, crc, d0, j, r)
    ensures j.src0.inode.id == ROOT ==> j.src0.inode.flags == 0
    ensures j.dst0.inode.id == ROOT ==> j.dst0.inode.flags == 0
  {
    hide InodeAt, View, Healthy, LastPosition, WithoutEntry, NameStatus, HasChild, Named, SlotAt, Validated, Unshared,
         Owns, Sound, GoodDirectory, MayHold;
    SlotSound(g, crc, d0, j.src0.inode.id);
    SlotSound(g, crc, d0, j.dst0.inode.id);
  }

  lemma OutcomeParent(g: Geometry, crc: Checksum, d0: Disk, d: Disk, j: Job, r: Request, after: bool, id: U64)
    requires g.Valid(|d0|) && |d| == |d0| && Outcome(g, crc, d0, d, j, r, after) && 0 < id <= g.inodeCount
    ensures GoodParent(g, crc, d, id)
  {
    hide InodeAt, Outcome, Owner, Unowned, HasTop;
    assert GoodParent(g, crc, d0, id) by { HealthyParent(g, crc, d0, d, j, r, after, id); }
    SameKind(g, crc, d0, d, j, r, after, id);
    if id != ROOT && InodeAt(g, crc, d, id).Success? {
      if after && id == j.childId {
        ChildOwner(g, crc, d0, d, j, r);
      } else {
        OutcomeParents(g, crc, d0, d, j, r, after, id);
      }
      if InodeAt(g, crc, d, id).value.kind == DIRECTORY {
        MoveKeepsTop(g, crc, d0, d, j, r, after, id);
      }
    }
  }

  lemma HealthyParent(g: Geometry, crc: Checksum, d0: Disk, d: Disk, j: Job, r: Request, after: bool, id: U64)
    requires g.Valid(|d0|) && |d| == |d0| && Outcome(g, crc, d0, d, j, r, after) && 0 < id <= g.inodeCount
    ensures GoodParent(g, crc, d0, id)
    ensures InodeAt(g, crc, d0, ROOT).Success? && InodeAt(g, crc, d0, ROOT).value.kind == DIRECTORY
  {
    hide InodeAt, GoodParent, GoodSlot, Describes, JobShape, Sane, Secluded, Frame, Consistent;
  }

  lemma SameKind(g: Geometry, crc: Checksum, d0: Disk, d: Disk, j: Job, r: Request, after: bool, id: U64)
    requires g.Valid(|d0|) && |d| == |d0| && Outcome(g, crc, d0, d, j, r, after)
    ensures
      var was, now := InodeAt(g, crc, d0, id), InodeAt(g, crc, d, id);
      (was.Success? <==> now.Success?) && (was.Success? ==> was.value.kind == now.value.kind)
  {
    hide InodeAt, Healthy, Describes, JobShape, Sane, Secluded, Consistent, SlotAt, Owns, Carries, Other;
    assert ChildKey(InodeAt(g, crc, d, id)) == ChildKey(InodeAt(g, crc, d0, id));
  }

  /** A move that was settled, undone or done, leaves a healthy volume healthy. */
  lemma OutcomeIsHealthy(g: Geometry, crc: Checksum, d0: Disk, d: Disk, j: Job, r: Request, after: bool)
    requires g.Valid(|d0|) && |d| == |d0| && Outcome(g, crc, d0, d, j, r, after)
    ensures Healthy(g, crc, d)
  {
    hide InodeAt, Outcome, GoodSlot, GoodParent;
    forall id: U64 | 0 < id <= g.inodeCount ensures GoodSlot(g, crc, d, id) {
      OutcomeSlot(g, crc, d0, d, j, r, after, id);
    }
    forall id: U64 | 0 < id <= g.inodeCount ensures GoodParent(g, crc, d, id) {
      OutcomeParent(g, crc, d0, d, j, r, after, id);
    }
    HealthyParent(g, crc, d0, d, j, r, after, ROOT);
    SameKind(g, crc, d0, d, j, r, after, ROOT);
  }

  // ----- Ownership flags -----

  /** Rewriting the flags of an inode, the root or a parent included, changes no directory. */
  lemma FlagsKeepViews(g: Geometry, crc: Checksum, d: Disk, i: Inode, flags: U32, id: U64)
    requires g.Valid(|d|) && InodeAt(g, crc, d, i.id) == Success(i) && i.revision < UINT32_MAX
    ensures
      var e := ApplyOp(d, PublishOp(g, crc, d, i.(flags := flags, revision := i.revision + 1)));
      View(g, crc, d, id).Success? ==> View(g, crc, e, id) == View(g, crc, d, id)
  {
    hide InodeAt, View, Carries, PublishOp;
    var i' := i.(flags := flags, revision := i.revision + 1);
    var e := ApplyOp(d, PublishOp(g, crc, d, i'));
    StoredIsAcceptable(g, crc, d, i.id);
    if View(g, crc, d, id).Success? {
      ViewedIsStored(g, crc, d, id);
      var v := ViewCarried(g, crc, d, InodeAt(g, crc, d, id).value);
      assert SameChildren(g, crc, d, d);
      PublishKeepsChildren(g, crc, d, d, i, i');
      TableWriteCarries(g, crc, d, d, i', v);
      PublishedTable(g, crc, d, i', id);
      var w := if id == i.id then v.(inode := i') else v;
      SameExtent(g, crc, e, v, w);
      CarriedView(g, crc, e, w);
    }
  }

  lemma ViewedIsStored(g: Geometry, crc: Checksum, d: Disk, id: U64)
    requires g.Valid(|d|) && View(g, crc, d, id).Success?
    ensures InodeAt(g, crc, d, id).Success? && Sound(g, crc, d, InodeAt(g, crc, d, id).value)
    ensures InodeAt(g, crc, d, id).value.id == id
  {
    hide EntriesUpTo;
  }

  lemma SameExtent(g: Geometry, crc: Checksum, d: Disk, v: Version, w: Version)
    requires g.Valid(|d|) && Carries(g, crc, d, v)
    requires w == v.(inode := v.inode.(flags := w.inode.flags, revision := w.inode.revision))
    ensures Carries(g, crc, d, w)
  {
    hide Decoded, Flat, AllAllocated;
  }
}
