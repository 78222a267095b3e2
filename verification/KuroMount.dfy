/** Mounting: choosing between the superblock copies and recovering an announced move. */
module KuroMount {
  import opened Options
  import opened KuroDisk
  import opened KuroBitmap
  import opened KuroAlloc
  import opened KuroInode
  import opened KuroDirectory
  import opened KuroVersion
  import opened KuroSuper
  import opened KuroRelease
  import opened KuroPlan
  import opened KuroMoveState
  import opened KuroMoveRecover
  import opened KuroOwner
  import opened KuroCheck
  import opened KuroAppendOp

  // ----- The choice between the copies -----

  /** The superblock to mount from what was read of the two copies, with the move it announces. */
  function Select(primary: Result<Super>, secondary: Result<Super>): (r: Result<Super>)
    ensures r.Success? ==> primary.Success? || secondary.Success?
  {
    if primary.Failure? && secondary.Failure? then
      if primary.error == BlockDeviceError || secondary.error == BlockDeviceError then Failure(BlockDeviceError)
      else Failure(InvalidSuperblock)
    else if primary.Success? && secondary.Success? && primary.value.generation == secondary.value.generation
         && primary.value.(move := None) != secondary.value.(move := None) then Failure(CorruptSuperblock)
    else
      var newest := if secondary.Failure? then primary.value
                    else if primary.Failure? then secondary.value
                    else if primary.value.generation >= secondary.value.generation then primary.value
                    else secondary.value;
      var base := newest.(move := None);
      var p := if primary.Success? && primary.value.(move := None) == base then primary.value.move else None;
      var s := if secondary.Success? && secondary.value.(move := None) == base then secondary.value.move else None;
      if p.Some? && s.Some? && p != s then Failure(CorruptSuperblock)
      else Success(base.(move := if s.Some? then s else p))
  }

  /** A copy as it was read: what is on the device, or a device error. */
  ghost predicate ReadAs(crc: Checksum, d: Disk, block: nat, read: Result<Super>) {
    read == SuperAt(crc, d, block) || read == Failure(BlockDeviceError)
  }

  /**
   In a state whose copies only know the move j, mounting goes on as soon as one copy can be read, and finds
   the announcement exactly if a copy that announces it was read. With both copies read the choice is the
   announcement, or the quiet superblock of that generation.
   */
  lemma SelectOf(g: Geometry, crc: Checksum, d: Disk, j: Job, primary: Result<Super>, secondary: Result<Super>)
    requires CopiesOk(g, crc, d, j) && ReadAs(crc, d, 0, primary) && ReadAs(crc, d, 1, secondary)
    ensures
      var r := Select(primary, secondary);
      && (r.Success? <==> primary.Success? || secondary.Success?)
      && (r.Success? ==>
            (r.value == Announcement(g, j) <==>
               primary == Success(Announcement(g, j)) || secondary == Success(Announcement(g, j))))
      && (r.Success? && r.value.move.Some? ==> r.value == Announcement(g, j) && Announced(g, crc, d, j))
      && (r.Success? && BothAnnounce(g, crc, d, j) ==> r.value == Announcement(g, j))
      && (r.Success? ==> r.value.geometry == g)
      && (primary == SuperAt(crc, d, 0) && secondary == SuperAt(crc, d, 1) ==>
            r == Success(if Announced(g, crc, d, j) then Announcement(g, j) else Clear(g, j)))
  {
    hide SuperAt;
  }

  // ----- The operation -----

  /** Only one copy announces the move, and that one could not be read. */
  predicate Missed(g: Geometry, crc: Checksum, d: Disk, j: Job, primary: Result<Super>, secondary: Result<Super>) {
    || (Announces(g, crc, d, 0, j) && !Announces(g, crc, d, 1, j) && primary.Failure?)
    || (Announces(g, crc, d, 1, j) && !Announces(g, crc, d, 0, j) && secondary.Failure?)
  }

  /** An announcement is passed over exactly if the only copy that makes it could not be read. */
  lemma PassedOverIff(g: Geometry, crc: Checksum, d: Disk, j: Job, primary: Result<Super>, secondary: Result<Super>)
    requires CopiesOk(g, crc, d, j) && ReadAs(crc, d, 0, primary) && ReadAs(crc, d, 1, secondary)
    requires Select(primary, secondary).Success?
    ensures Announced(g, crc, d, j) && Select(primary, secondary).value.move.None? <==>
      Missed(g, crc, d, j, primary, secondary)
  {
    hide SuperAt;
    SelectOf(g, crc, d, j, primary, secondary);
  }

  method ReadCopy(device: Device, checksum: Checksum, block: nat) returns (read: Result<Super>)
    ensures ReadAs(checksum, device.sectors, block, read)
    ensures device.reliable ==> read == SuperAt(checksum, device.sectors, block)
  {
    hide DecodeSuper;
    var status, sector := device.Read(block);
    read := if status == Ok then DecodeSuper(checksum, |device.sectors|, sector) else Failure(BlockDeviceError);
  }

  /** The lists of a job that takes one child out of the source and adds it to the destination. */
  ghost predicate MovesChild(j: Job) {
    && HasChild(j.src0.list, j.childId) && !HasChild(j.dst0.list, j.childId)
    && HasChild(j.dst1.list, j.childId)
  }

  /**
   The device operations of mounting a volume on which only the move j may be announced, and what a mount
   that is done has checked.
   */
  ghost predicate MountRan(g: Geometry, crc: Checksum, d: Disk, j: Job, ops: seq<Op>, done: bool)
    requires g.Valid(|d|) && Sane(g, j)
  {
    SaneIntent(g, j);
    && (|| (ops == [] && (done ==> !BothAnnounce(g, crc, d, j)))
        || (Announced(g, crc, d, j) && RecoverRan(g, crc, d, Announcement(g, j), IntentOf(j), ops, done)))
    && (done ==> Healthy(g, crc, Apply(d, ops)))
  }

  /** Wherever power is cut while ops are accepted on d, mounting can settle the move. */
  ghost predicate CutRecoverable(g: Geometry, crc: Checksum, d: Disk, ops: seq<Op>, j: Job) {
    forall e: Disk :: CrashPoint(d, ops, e) ==> Recoverable(g, crc, e, j)
  }

  /** A volume with only the destination updated lists the child twice, so no mount hands it out. */
  lemma HalfDoneIsUnhealthy(g: Geometry, crc: Checksum, d: Disk, j: Job)
    requires g.Valid(|d|) && JobShape(g, j) && Full(g, crc, d, j, false, true) && MovesChild(j)
    ensures !Healthy(g, crc, d)
  {
    hide InodeAt, View, Carries, HasChild, DisjointExtents, SlotAt, Once, Validated, Unshared, Owns;
    var c, s, t := j.childId, j.src0.inode.id, j.dst0.inode.id;
    CarriedView(g, crc, d, j.src0);
    CarriedView(g, crc, d, j.dst1);
    assert Lists(g, crc, d, s, c) && Lists(g, crc, d, t, c);
    if Healthy(g, crc, d) {
      ListedOnce(g, crc, d, s, t, c);
    }
  }

  /** Mounting keeps a recoverable state recoverable at every cut, and success leaves both parents in step. */
  lemma MountCut(g: Geometry, crc: Checksum, d: Disk, j: Job, ops: seq<Op>, done: bool)
    requires g.Valid(|d|) && Sane(g, j) && Recoverable(g, crc, d, j) && MountRan(g, crc, d, j, ops, done)
    ensures CutRecoverable(g, crc, d, ops, j)
    ensures done ==> Settled(ops) && |Apply(d, ops)| == |d|
    ensures done && MovesChild(j) ==> exists after :: Consistent(g, crc, Apply(d, ops), j, after)
  {
    hide At, Recoverable, RecoverRan, Announced, BothAnnounce, CrashPoint, Apply, Consistent, VerdictAt, Healthy,
         MovesChild;
    SaneIntent(g, j);
    if ops == [] && (done ==> !BothAnnounce(g, crc, d, j)) {
      QuietMount(g, crc, d, j);
      ApplyNothing(d);
    } else {
      forall e: Disk | CrashPoint(d, ops, e) ensures Recoverable(g, crc, e, j) {
        RecoverCut(g, crc, d, j, ops, done, e);
      }
      RecoverCut(g, crc, d, j, ops, done, d);
    }
  }

  lemma QuietMount(g: Geometry, crc: Checksum, d: Disk, j: Job)
    requires g.Valid(|d|) && Recoverable(g, crc, d, j)
    ensures CutRecoverable(g, crc, d, [], j)
    ensures (Healthy(g, crc, d) && MovesChild(j)) || !Announced(g, crc, d, j) ==>
      exists after :: Consistent(g, crc, d, j, after)
  {
    hide Consistent, Full, SuperAt, Sane, JobShape, Healthy, MovesChild;
    if Full(g, crc, d, j, false, true) && MovesChild(j) {
      HalfDoneIsUnhealthy(g, crc, d, j);
    }
    forall e: Disk | CrashPoint(d, [], e) ensures e == d {
      var P := (x: Disk) => x == d;
      CrashPointInvariant(d, [], P, e);
    }
  }

  /** The copies know only the move j, and its child is there. */
  ghost predicate Known(g: Geometry, crc: Checksum, d: Disk, j: Job) {
    && g.Valid(|d|) && JobShape(g, j) && Sane(g, j) && CopiesOk(g, crc, d, j) && ChildOk(g, crc, d, j)
  }

  /** Copies of this volume only, one of them to be selected, and neither announces a move. */
  predicate NothingAnnounced(g: Geometry, crc: Checksum, d: Disk) {
    var primary, secondary := SuperAt(crc, d, 0), SuperAt(crc, d, 1);
    && Select(primary, secondary).Success?
    && (primary.Success? ==> primary.value.geometry == g && primary.value.move.None?)
    && (secondary.Success? ==> secondary.value.geometry == g && secondary.value.move.None?)
  }

  predicate Noticed(g: Geometry, j: Job, primary: Result<Super>, secondary: Result<Super>) {
    primary == Success(Announcement(g, j)) || secondary == Success(Announcement(g, j))
  }

  method Mount(device: Device, checksum: Checksum, ghost g: Geometry, ghost j: Job)
    returns (status: Status, fs: FileSystem, s: Super, ghost primary: Result<Super>, ghost secondary: Result<Super>)
    modifies device
    ensures old(device.log) <= device.log
    ensures device.sectors == Apply(old(device.sectors), device.Since(|old(device.log)|))
    ensures ReadAs(checksum, old(device.sectors), 0, primary) && ReadAs(checksum, old(device.sectors), 1, secondary)
    ensures status == Ok ==>
      && fs.device == device && fs.mounted && fs.checksum == checksum && fs.geometry == s.geometry
      && s.geometry.Valid(|device.sectors|) && s.generation != 0
      && Healthy(fs.geometry, checksum, device.sectors)
    ensures Known(g, checksum, old(device.sectors), j) ==>
      && MountRan(g, checksum, old(device.sectors), j, device.Since(|old(device.log)|), status == Ok)
      && (status == Ok ==> s.geometry == g)
    // A move that was recovered has given back the versions not in use, and no other block changed hands.
    ensures Known(g, checksum, old(device.sectors), j) && status == Ok ==>
      if Noticed(g, j, primary, secondary) then
        GivenBack(g, old(device.sectors), device.sectors,
                  Unused(IntentOf(j), VerdictAt(g, checksum, old(device.sectors), IntentOf(j)).Undo?))
      else device.log == old(device.log)
    ensures Recoverable(g, checksum, old(device.sectors), j) ==>
      && CutRecoverable(g, checksum, old(device.sectors), device.Since(|old(device.log)|), j)
      && (status == Ok ==> Settled(device.Since(|old(device.log)|)) && |device.sectors| == |old(device.sectors)|)
      && (status == Ok && MovesChild(j) ==> exists after :: Consistent(g, checksum, device.sectors, j, after))
      // A successful mount leaves the move announced exactly if it could not read the copy that announces it.
      && (status == Ok ==>
            (Announced(g, checksum, device.sectors, j) <==>
               Missed(g, checksum, old(device.sectors), j, primary, secondary)))
    // Without device errors the move is settled and withdrawn, and the rest of the volume decides.
    ensures Recoverable(g, checksum, old(device.sectors), j) && device.reliable ==>
      && |device.sectors| == |old(device.sectors)| && !Announced(g, checksum, device.sectors, j)
      && (exists after :: Consistent(g, checksum, device.sectors, j, after))
      && (status == Ok <==> Healthy(g, checksum, device.sectors)) && (status == Ok ==> s == Clear(g, j))
    ensures NothingAnnounced(g, checksum, old(device.sectors)) ==>
      && device.log == old(device.log) && (status == Ok ==> s.geometry == g)
      && (device.reliable ==> (status == Ok <==> Healthy(g, checksum, device.sectors)))
    // An announcement that recovery cannot handle stops every mount that reads it, before it writes anything.
    ensures Known(g, checksum, old(device.sectors), j) && Noticed(g, j, primary, secondary) ==>
      var v := VerdictAt(g, checksum, old(device.sectors), IntentOf(j));
      v.Refuse? ==> status != Ok && device.log == old(device.log) && (device.reliable ==> status == v.error)
    ensures Known(g, checksum, old(device.sectors), j) && device.reliable ==>
      (Noticed(g, j, primary, secondary) <==> Announced(g, checksum, old(device.sectors), j))
  {
    hide Apply, Select, CopiesOk, At, Recoverable, RecoverRan, CutRecoverable, Consistent, Sane, JobShape, SuperAt,
         ChildOk, Announced, BothAnnounce, IntentValid, VerdictAt, Healthy, MovesChild, Missed, NothingAnnounced,
         GivenBack, Unused;
    ghost var d0, n := device.sectors, |device.log|;
    ApplyNothing(d0);
    assert device.Since(n) == [];
    s := Super(Geometry(0, 0, 0, 0, 0, 0, 0), 0, 0, None);
    fs := FileSystem(device, s.geometry, false, checksum);
    var first := ReadCopy(device, checksum, 0);
    var second := ReadCopy(device, checksum, 1);
    primary, secondary := first, second;
    var selected := Select(first, second);
    MountFacts(g, checksum, d0, j, primary, secondary);
    if Recoverable(g, checksum, d0, j) {
      QuietMount(g, checksum, d0, j);
    }
    if selected.Failure? {
      return selected.error, fs, s, primary, secondary;
    }
    s := selected.value.(move := None);
    fs := FileSystem(device, s.geometry, true, checksum);
    if selected.value.move.Some? {
      status := Recover(fs, selected.value, selected.value.move.value, j);
      RecoveredMount(g, checksum, d0, j, device.Since(n), status == Ok);
      if status != Ok {
        if Recoverable(g, checksum, d0, j) {
          MountCut(g, checksum, d0, j, device.Since(n), false);
        }
        return;
      }
    }
    status := CheckVolume(fs);
    if Recoverable(g, checksum, d0, j) {
      MountCut(g, checksum, d0, j, device.Since(n), status == Ok);
    }
  }

  /** What the two copies say about the move, and about the volume. */
  lemma MountFacts(g: Geometry, crc: Checksum, d: Disk, j: Job, primary: Result<Super>, secondary: Result<Super>)
    requires ReadAs(crc, d, 0, primary) && ReadAs(crc, d, 1, secondary)
    ensures
      var r := Select(primary, secondary);
      && (r.Failure? ==> r.error != Ok)
      && (r.Success? ==> r.value.geometry.Valid(|d|) && r.value.generation != 0)
      && (r.Success? && r.value.move.Some? ==> IntentValid(r.value.geometry, r.value.move.value))
      && (Recoverable(g, crc, d, j) ==> Known(g, crc, d, j))
      && (Known(g, crc, d, j) && r.Success? ==>
            && r.value.geometry == g && IntentValid(g, IntentOf(j))
            && (r.value.move.Some? ==> r.value == Announcement(g, j) && Announced(g, crc, d, j))
            && (r.value.move.Some? <==> Noticed(g, j, primary, secondary))
            && (BothAnnounce(g, crc, d, j) ==> r.value == Announcement(g, j))
            && (Announced(g, crc, d, j) && r.value.move.None? <==> Missed(g, crc, d, j, primary, secondary)))
      && (Known(g, crc, d, j) && primary == SuperAt(crc, d, 0) && secondary == SuperAt(crc, d, 1) ==>
            && r == Success(if Announced(g, crc, d, j) then Announcement(g, j) else Clear(g, j))
            && (Noticed(g, j, primary, secondary) <==> Announced(g, crc, d, j)))
      && (Recoverable(g, crc, d, j) && Announced(g, crc, d, j) ==>
            Pending(g, crc, d, j, Announcement(g, j), IntentOf(j)))
      && (NothingAnnounced(g, crc, d) ==>
            && (r.Success? ==> r.value.geometry == g && r.value.move.None?)
            && (primary == SuperAt(crc, d, 0) && secondary == SuperAt(crc, d, 1) ==> r.Success?))
  {
    SelectQuiet(g, crc, d, primary, secondary);
    hide NothingAnnounced, Select, Recoverable, CopiesOk, Sane, JobShape, ChildOk, At, VerdictAt, IntentValid,
         SuperAt, Missed;
    SelectValid(crc, d, primary, secondary);
    KnownFacts(g, crc, d, j);
    if Known(g, crc, d, j) {
      SelectOf(g, crc, d, j, primary, secondary);
      if Select(primary, secondary).Success? {
        PassedOverIff(g, crc, d, j, primary, secondary);
      }
    }
  }

  lemma SelectQuiet(g: Geometry, crc: Checksum, d: Disk, primary: Result<Super>, secondary: Result<Super>)
    requires ReadAs(crc, d, 0, primary) && ReadAs(crc, d, 1, secondary)
    ensures
      var r := Select(primary, secondary);
      NothingAnnounced(g, crc, d) ==>
        && (r.Success? ==> r.value.geometry == g && r.value.move.None?)
        && (primary == SuperAt(crc, d, 0) && secondary == SuperAt(crc, d, 1) ==> r.Success?)
  {
    hide SuperAt;
  }

  /** Whatever is selected describes this device. */
  lemma SelectValid(crc: Checksum, d: Disk, primary: Result<Super>, secondary: Result<Super>)
    requires ReadAs(crc, d, 0, primary) && ReadAs(crc, d, 1, secondary)
    ensures
      var r := Select(primary, secondary);
      && (r.Failure? ==> r.error != Ok)
      && (r.Success? ==> r.value.geometry.Valid(|d|) && r.value.generation != 0)
      && (r.Success? && r.value.move.Some? ==> IntentValid(r.value.geometry, r.value.move.value))
  {
    hide DecodeSuper, IntentValid;
  }

  lemma KnownFacts(g: Geometry, crc: Checksum, d: Disk, j: Job)
    ensures Recoverable(g, crc, d, j) ==> Known(g, crc, d, j)
    ensures Recoverable(g, crc, d, j) && Announced(g, crc, d, j) ==>
      Pending(g, crc, d, j, Announcement(g, j), IntentOf(j))
    ensures Known(g, crc, d, j) ==> IntentValid(g, IntentOf(j))
  {
    hide InodeAt, Full, At, VerdictAt, ChildOk, Carries, CopiesOk, Announced, BothAnnounce;
    if g.Valid(|d|) {
      FullChild(g, crc, d, j);
    }
  }

  lemma RecoveredMount(g: Geometry, crc: Checksum, d: Disk, j: Job, ops: seq<Op>, done: bool)
    ensures g.Valid(|d|) && Recoverable(g, crc, d, j) && Announced(g, crc, d, j) && IntentValid(g, IntentOf(j)) ==>
      RecoverRan(g, crc, d, Announcement(g, j), IntentOf(j), ops, done) && done ==>
      var end := Apply(d, ops);
      |end| == |d| && !Announced(g, crc, end, j) && exists after :: Consistent(g, crc, end, j, after)
    ensures g.Valid(|d|) && IntentValid(g, IntentOf(j)) ==>
      RecoverRan(g, crc, d, Announcement(g, j), IntentOf(j), ops, done) ==>
      && RecoverRan(g, crc, d, Announcement(g, j), IntentOf(j), ops, false)
      && (VerdictAt(g, crc, d, IntentOf(j)).Refuse? ==> ops == [] && !done)
  {
    hide Recoverable, Announced, RecoverRan, IntentValid, Apply, Consistent, CrashPoint, VerdictAt;
    if g.Valid(|d|) && IntentValid(g, IntentOf(j)) {
      if RecoverRan(g, crc, d, Announcement(g, j), IntentOf(j), ops, done) {
        RanStops(g, crc, d, Announcement(g, j), IntentOf(j), ops, done);
        if Recoverable(g, crc, d, j) && Announced(g, crc, d, j) && done {
          RecoverCut(g, crc, d, j, ops, true, d);
        }
      }
    }
  }

  /** A recovery that is done is also one that got that far; one that is refused did nothing. */
  lemma RanStops(g: Geometry, crc: Checksum, d: Disk, s: Super, m: Intent, ops: seq<Op>, done: bool)
    requires g.Valid(|d|) && IntentValid(g, m) && RecoverRan(g, crc, d, s, m, ops, done)
    ensures RecoverRan(g, crc, d, s, m, ops, false)
    ensures VerdictAt(g, crc, d, m).Refuse? ==> ops == [] && !done
  {
    hide VerdictAt, RecoverPlan, Apply, IntentValid, Steps, Freed;
    var r, rel :|
      && ops == r + rel && Ran(RecoverPlan(g, crc, d, s, m), r, rel != [] || done) && (done ==> Settled(rel))
      && Freed(g, Apply(d, r), rel, m, VerdictAt(g, crc, d, m).Undo?);
    assert Ran(RecoverPlan(g, crc, d, s, m), r, rel != [] || false);
  }

  // ----- An announcement that outlives its move -----

  /** One parent has been updated since the move: the announcement can be neither undone nor completed. */
  lemma OutdatedIsRefused(g: Geometry, crc: Checksum, d: Disk, j: Job)
    requires Known(g, crc, d, j)
    requires InodeAt(g, crc, d, j.src0.inode.id).Success? && InodeAt(g, crc, d, j.dst0.inode.id).Success?
    requires || InodeAt(g, crc, d, j.src0.inode.id).value.revision > j.src0.inode.revision + 1
             || InodeAt(g, crc, d, j.dst0.inode.id).value.revision > j.dst0.inode.revision + 1
    ensures VerdictAt(g, crc, d, IntentOf(j)) == Refuse(CorruptDirectory)
  {
    hide InodeAt, CopiesOk, Sane, DisjointExtents;
  }

  /** The next update of either parent after a completed move makes an announcement left standing outdated. */
  lemma UpdateOutdates(g: Geometry, crc: Checksum, d: Disk, j: Job, i: Inode)
    requires Known(g, crc, d, j) && At(g, crc, d, j, true, true) && MayPublish(g, crc, d, i)
    requires i.id == j.src0.inode.id || i.id == j.dst0.inode.id
    ensures
      var e := ApplyOp(d, PublishOp(g, crc, d, i.(revision := i.revision + 1)));
      && Known(g, crc, e, j) && (Announced(g, crc, e, j) <==> Announced(g, crc, d, j))
      && VerdictAt(g, crc, e, IntentOf(j)) == Refuse(CorruptDirectory)
  {
    hide InodeAt, Sane, DisjointExtents, SuperAt, PublishOp, InodeExtentStatus, VerdictAt;
    var i' := i.(revision := i.revision + 1);
    var e := ApplyOp(d, PublishOp(g, crc, d, i'));
    PublishKeepsSupers(g, crc, d, i', 0);
    PublishKeepsSupers(g, crc, d, i', 1);
    PublishedTable(g, crc, d, i', j.src0.inode.id);
    PublishedTable(g, crc, d, i', j.dst0.inode.id);
    PublishedTable(g, crc, d, i', j.childId);
    OutdatedIsRefused(g, crc, e, j);
  }
}
