# KuroganeOS: a verified model of its storage, boot, rendering and tooling cores

This project models the parts of KuroganeOS whose correctness is hardest to see
from the code, and proves what they promise. It is written in Dafny 4.11; the
whole of it is checked with `dafny verify dfyconfig.toml`.

**KuroFS.** `KuroDisk` is a block device with a write cache: a power cut may keep
any subset of the sector writes since the last flush. Every access may fail, unless
the device is marked reliable; the operations state what they do in either case.
On it stand the block allocator (`KuroBitmap`, `KuroAlloc`, `KuroRelease`),
byte-level extent I/O (`KuroExtent`), the inode table with optimistic updates
(`KuroInode`), directories (`KuroDirectory`, `KuroDirFrame`, `KuroVersion`), the
crash-atomic append (`KuroAppend`, `KuroAppendOp`) and the read-only VFS adapter
(`KuroVfs`). `KuroAllocRun`, `KuroInodeRun` and `KuroDirectoryRun` lift the single
operations to all runs, with every failure and with power cuts at any point, also
on top of writes an earlier call left unflushed.

The announced move between two directories stands on the same device: superblock
encoding (`KuroSuper`), plans of flushed single-sector writes (`KuroPlan`), the
states a cut may leave (`KuroMoveState`), recovery and mounting
(`KuroMoveRecover`, `KuroMount`), preparation, plan and operation
(`KuroMovePrepare`, `KuroMovePlan`, `KuroMoveJob`, `KuroMove`), mounting again over
an unflushed write (`KuroRemount`), and moving on top of one (`KuroMoveOver`).

The volume as a whole: who lists an inode (`KuroOwner`), the tree of directories and
the searches that follow it (`KuroTree`), and everything mounting checks
(`KuroCheck`). `KuroMoveFrame` shows that a move and its recovery leave every other
inode alone wherever they are cut, `KuroMoveTree` that a settled move leaves a
healthy volume with the same tree and one entry hung elsewhere, and `KuroRestart`
puts move, power cut and mount together: after any cut, and after any number of
mounts that were cut themselves, a mount without device errors succeeds, and a mount
that succeeds hands out the old volume with the move undone or done.

**Boot path.** `Elf`, `ElfRelocate` and `ElfLoad` are the kernel loader down to the
bytes of the loaded image; `ElfBytes` writes the records of a kernel file out as
bytes, and `ElfKernel` says what the loader makes of a file so written; `MemoryMap` and `ExitBoot` are the ExitBootServices
protocol against a firmware that changes its memory map behind the loader's back;
`Handoff` puts the loader's boot record and what the kernel accepts together.

**Diagnostics, graphics, tools.** `EventRing` is the sequence-locked event ring as
an interleaving step machine; `Raster` is damage-masked rendering and scrolling;
`Layout` is the retained UI's drawing and hit testing; `PackagePath`, `Package` and
`PackageRead` are the installer package, from the build script that writes it to
the kernel code that reads it; `Numbers` is parsing and formatting of integers.

The KuroFS and framebuffer code reached its present form through patch scripts
that carry the C++ text; where a script shows a function, the table cites the
script. Wherever a script and the C++ file differ, the citation says which of the
two the member follows. The move and mount modules, `Layout` and the package reader
follow the C and C++ files.

Checksums are a function parameter: every theorem holds for any checksum function.
Failures of the device and answers of the firmware are nondeterministic choices.

## Findings

* The kernel loader validates only load headers that occupy memory, but copies
  every load header that has file bytes. `ElfLoad.CopiesInsideIff` says exactly
  when all copies stay inside the image, `ElfLoad.HollowHeaderAccepted` gives a
  table where one does not; the loader's own theorem assumes the exact condition.
* The package builder skips empty path components, the kernel refuses them.
  `PackagePath.PathsAgree` is the exact difference, `PackagePath.BuilderTakesMore`
  gives paths, and `PackageRead.PackageRoundTrip` says precisely which written
  packages the kernel accepts.
* A complete guard of the event ring is shared by two neighbouring sequence
  numbers (`EventRing.CompleteGuardCollisions`); within one slot guards still
  identify a record. If two writers overlap on a slot, a reader can return a torn
  event (`EventRing.LappedSlotTears`), and a run from the empty ring gets there
  (`EventRing.TornReadReached`), so the safety theorem needs the premise that a
  writer is not lapped.
* A failed package load whose page allocation reports "not found" leaves a size
  behind, and the kernel then refuses the boot record; `Handoff.HandoffAccepted`
  lists this with the other exact conditions.
* Two drawn views overlap exactly when they are drawn in succession, both tiles or
  both metric cards, the run of that type before the later one does not end a row,
  and the earlier one is deeper in the scene, by at least two levels for tiles and by
  at least one for metric cards (`Layout.DrawnOverlap`); `Layout.DeepTileOverlaps`
  gives a drawable scene of four views.
* A move between directories can lose its entry. If the destination's inode was
  written but its flush failed, and the volume is mounted again before the power is
  cut, recovery publishes the source over a destination that may not survive; then
  neither directory lists the child and mounting refuses the volume
  (`KuroRemount.RiskIsReal`, `KuroRemount.LostByBoth`). `KuroRemount.MountSafeIff`
  is the exact condition and `KuroRemount.FailedMoveFollows` says which failure of a
  move brings it about: that one only, and only if the two inodes are in different
  sectors of the table. In every other session of a move, mounts and power cuts
  whatever survives can be settled (`KuroRemount.SessionKeepsFollow`).
* If one superblock copy cannot be read, mounting trusts the other, and a successful
  mount can leave an announcement standing: exactly if the only copy that makes it
  could not be read (`KuroMount.Mount`, `KuroMount.PassedOverIff`).
  `KuroRemount.AnnouncementStands` gives the volume, a move cut before its last
  write. The next update of either parent then makes the announcement outdated, and
  every mount that reads it refuses the volume as corrupt
  (`KuroMount.UpdateOutdates`, `KuroMount.OutdatedIsRefused`). A volume with only the
  destination updated is never handed out: both directories list the child, and the
  check for a unique parent refuses it (`KuroMount.HalfDoneIsUnhealthy`).
* Reading a directory entry reports a device error on the child's inode as
  corruption; `KuroDirectory.DirectoryEntryAt` keeps that.

## Model

| member | source | states |
|---|---|---|
| `KuroDisk.CrashAfterFlush` | scripts/dev-apply-kurofs-allocator.py:108-170 | whatever survives a power cut after a flush is the flushed contents with a cut of the later writes |
| `KuroDisk.CrashPointInvariant` | scripts/dev-apply-kurofs-allocator.py:108-170 | a property every single write keeps, from any survivor set, holds at every power cut during the operation |
| `KuroAlloc.FindFreeExtent` | scripts/dev-apply-kurofs-allocator.py:71-107 | the smallest start of a run of free bits across bitmap sectors; NoSpace only if no such run exists |
| `KuroAlloc.MarkSegment` | scripts/dev-apply-kurofs-allocator.py:108-153 | marks exactly the bits of the segment and refuses if one was already set |
| `KuroAlloc.PublishExtentAllocation` | scripts/dev-apply-kurofs-allocator.py:108-153 | success marks exactly a run that was free; every prefix of its writes only adds bits |
| `KuroAlloc.ValidateAllocatedExtent` | scripts/dev-apply-kurofs-data.py:89-137 | the status is the one the bitmap dictates, or a device error |
| `KuroAlloc.ZeroExtent` | scripts/dev-apply-kurofs-data.py:157-171 | only blocks of the extent are written, success leaves them zero and flushed |
| `KuroAlloc.AllocateBlocks` | scripts/dev-apply-kurofs-data.py:183-196 | success is the first fit of the old bitmap, marked, zeroed and flushed, and no other block becomes allocated; a failure issues nothing and clears no bit; on a reliable device it succeeds exactly if a run exists |
| `KuroBitmap.GrowCrash` | scripts/dev-apply-kurofs-allocator.py:108-153 | allocation bits set before survive any power cut during a publication |
| `KuroAllocRun.AllocateKeepsSafe` | scripts/dev-apply-kurofs-allocator.py:154-170 | one allocation, with any outcome, keeps issued extents disjoint, in range and marked in every surviving image |
| `KuroAllocRun.ReleaseKeepsSafe` | kernel/fs/kurofs.cpp:760-797 | giving an extent back, however far that gets, leaves every other live extent disjoint and marked in every surviving image |
| `KuroAllocRun.NoDoubleIssue` | scripts/dev-apply-kurofs-allocator.py:71-170 | over every run of allocations, releases, failures and power cuts the extents handed out and not given back stay pairwise disjoint, in the data area and marked |
| `KuroAllocRun.BitsStaySet` | scripts/dev-apply-kurofs-allocator.py:71-170 | over every such run a block allocated in every image that can survive stays so until an extent that holds it is given back |
| `KuroAllocRun.PoweredUpIsSafe` | scripts/dev-apply-kurofs-allocator.py:154-170 | a freshly mounted volume satisfies the premise of the run theorem |
| `KuroExtent.WriteExtentData` | scripts/dev-apply-kurofs-data.py:231-276 | the device changes in exactly the bytes of the range, flushed on success; a failure changed no byte outside it; a valid request on a reliable device succeeds |
| `KuroExtent.PatchedRefinesFlat` | scripts/dev-apply-kurofs-data.py:231-276 | seen as one flat byte array the extent has the source spliced in at the offset |
| `KuroExtent.PatchedKeepsOthers` | scripts/dev-apply-kurofs-data.py:231-276 | every other extent reads as before |
| `KuroInode.InodeRoundTrip` | kernel/fs/kurofs.cpp:470-493 | an encoded inode decodes to itself, stored revision 0 to revision 1, and unacceptable ones are refused; free slots are refused like any other here, as in the scripts, and told apart by `KuroOwner.SlotRoundTrip` |
| `KuroInode.ReadInode` | kernel/fs/kurofs.cpp:1526-1554 | returns what the table slot decodes to, with its error, or a device error; the NotFound of the C++ file for a free slot is `KuroOwner.ReadSlot` |
| `KuroInode.ValidateInodeExtent` | scripts/dev-apply-kurofs-data.py:139-155 | the status is the one the inode's fields and the bitmap dictate |
| `KuroInode.StoreInode` | scripts/dev-apply-kurofs-data.py:199-229 | the only write is the one sector with the inode spliced in, flushed on success |
| `KuroInode.UpdateInode` | scripts/dev-apply-kurofs-inode-revision.py:68-92 | publishes revision + 1 exactly when generation, revision and type are current; a stale snapshot never writes; a permitted update on a reliable device succeeds |
| `KuroInode.UpdateFlagged` | kernel/fs/kurofs.cpp:1758-1795 | refuses flags the volume cannot have without a write, and is the revision-checked update otherwise |
| `KuroInode.PublishedTable` | scripts/dev-apply-kurofs-data.py:199-229 | after a publication its slot decodes to the new inode and every other slot as before |
| `KuroInode.ReadInodeData` | scripts/dev-apply-kurofs-data.py:278-330 | returns exactly min(capacity, size - offset) bytes of a current snapshot, byte i being byte offset + i of the blocks of its extent laid end to end, else the exact error |
| `KuroInode.DataIsContents` | scripts/dev-apply-kurofs-data.py:278-330 | the bytes of an inode, block by block: position p is byte p % 512 of the sector p / 512 after the extent's start |
| `KuroInode.ReadExtent` | scripts/dev-apply-kurofs-data.py:278-330 | the sector loop concatenates to the flat byte range |
| `KuroInodeRun.UpdateEffect` | scripts/dev-apply-kurofs-inode-revision.py:68-92 | an update raises the revision by exactly one and changes neither generation nor type, and no other inode |
| `KuroInodeRun.AtMostOneWinPerRevision` | scripts/dev-apply-kurofs-inode-revision.py:68-92 | over every run of clients, failures and power cuts at most one update succeeds from any revision |
| `KuroInodeRun.PublishKeepsPast` | scripts/dev-apply-kurofs-revision-compat.py:20-31 | no publication, in any surviving image, takes an inode back to a revision an update already succeeded from |
| `KuroDirectory.ParseDirectoryName` | scripts/dev-apply-kurofs-directory.py:91-108 | accepts exactly the names of the specification, with the right error |
| `KuroDirectory.RecordRoundTrip` | scripts/dev-apply-kurofs-directory.py:136-173 | a written directory record decodes to the entry it was written for |
| `KuroDirectory.RequireCurrentSnapshot` | scripts/dev-apply-kurofs-directory-v2.py:23-30 | succeeds only if the snapshot equals the inode on disk, else says stale or the read error |
| `KuroDirectory.DirectoryEntryAt` | scripts/dev-apply-kurofs-directory.py:190-220 | returns the decoded and child-checked record at the index, or its error |
| `KuroDirectory.DirectoryLookup` | scripts/dev-apply-kurofs-directory.py:222-249 | finds the first entry of that name; NotFound means the whole directory is sound and has no such name; on a reliable device and a sound directory it answers Ok exactly if the name is in the decoded list and NotFound otherwise; any other outcome but a device fault means no entry of that name can be reached |
| `KuroDirectory.LookupExact` | scripts/dev-apply-kurofs-directory.py:222-249 | on a sound directory there is a first entry of a name exactly if the decoded list holds it, and it is the one at its first position |
| `KuroDirFrame.EntriesTransfer` | scripts/dev-apply-kurofs-directory.py:136-220 | two images with the same record bytes and matching children decode to the same entries |
| `KuroDirFrame.KeepsView` | scripts/dev-apply-kurofs-directory.py:251-336 | an image that keeps table, bits and published bytes decodes to the same directory |
| `KuroDirFrame.HarmlessCut` | scripts/dev-apply-kurofs-directory.py:251-336 | writes into free blocks, bitmap writes that clear nothing and writes behind the published bytes leave the directory untouched at every power cut |
| `KuroVersion.CarriedView` | scripts/dev-apply-kurofs-directory.py:136-220 | a stored version of a directory is what it decodes to once its inode is in the table |
| `KuroVersion.HarmlessFits` | scripts/dev-apply-kurofs-directory.py:251-336 | laid over any image that can survive, such a write keeps both the older and the current version of the directory readable |
| `KuroVersion.OtherFits` | scripts/dev-apply-kurofs-inode-revision.py:68-92 | so does an update of any other inode, children included |
| `KuroAppend.AppendInPlace` | scripts/dev-apply-kurofs-directory.py:251-336 | every write stays behind the published bytes, so no power cut can change the directory; on success the record lies behind the old ones, flushed |
| `KuroAppend.CopyOnGrow` | scripts/dev-apply-kurofs-directory.py:251-336 | the same for the copy into a new extent, which holds the old records and the new one |
| `KuroAppendOp.PublishedView` | scripts/dev-apply-kurofs-directory.py:251-336 | prepared image plus published inode decode to the old entries and the new one |
| `KuroAppendOp.PublicationIsAtomic` | scripts/dev-apply-kurofs-directory.py:251-336 | preparation followed by publication is atomic under any power cut, and a successful one is in place |
| `KuroAppendOp.PrepareImage` | scripts/dev-apply-kurofs-directory.py:251-336 | in place or by copy, the record is put behind the old ones without touching the published directory |
| `KuroAppendOp.AppendChecked` | scripts/dev-apply-kurofs-directory.py:251-336 | the writing half of the append: atomic under any power cut, flushed when it succeeds, and sure to succeed if there is room and the device is reliable |
| `KuroAppendOp.AppendIsAtomic` | scripts/dev-apply-kurofs-directory.py:251-336 | the operations of an append are harmless preparation and at most one publication; cut anywhere they leave the old list or the old list and the new entry, and success is flushed |
| `KuroAppendOp.ScanForDuplicate` | scripts/dev-apply-kurofs-directory.py:251-336 | passes only if neither the name nor the child is in the directory, names the clash otherwise, and passes on a reliable device if there is none |
| `KuroAppendOp.DirectoryAppend` | scripts/dev-apply-kurofs-directory.py:251-336 | at every power cut, with any subset of unflushed writes, the directory decodes to the old entries or the old entries plus the new one; success means the latter, flushed; on a reliable device it succeeds whenever its stated conditions hold |
| `KuroDirectoryRun.RunRefinesList` | scripts/dev-apply-kurofs-directory.py:251-336 | after any run of appends with any outcome, updates of other inodes, allocations and power cuts, every image that can survive decodes to the starting list followed by every acknowledged entry in order and otherwise only by published ones, names and children distinct; without a power cut the list is exactly the starting one and the published entries |
| `KuroDirectoryRun.PresentIffPublished` | scripts/dev-apply-kurofs-directory.py:222-336 | in every run without a power cut, refused and failed appends included, a name is present exactly if it was at the start or its publication reached the device |
| `KuroDirectoryRun.LookupAfterRun` | scripts/dev-apply-kurofs-directory.py:222-336 | after any run, whatever survives, looking a name up finds the very entry that was there or acknowledged, and none that was neither there nor published |
| `KuroDirectoryRun.CutInside` | scripts/dev-apply-kurofs-directory.py:251-336 | an operation cut short after any number of its writes is again an operation of the run, so cuts inside calls are covered |
| `KuroSuper.SuperRoundTrip` | kernel/fs/kurofs.cpp:208-416 | a superblock sector, with or without an announced move, decodes to exactly what was written |
| `KuroSuper.MoveRoundTrip` | kernel/fs/kurofs.cpp:332-380 | an announcement that passes the decoder's validity rules reads back as itself |
| `KuroRelease.ReleaseExtent` | kernel/fs/kurofs.cpp:760-797 | clears exactly the bits of an allocated extent, flushed on success; however it is cut no other bit and no other sector changes |
| `KuroRelease.ReleaseCut` | kernel/fs/kurofs.cpp:760-797 | at every power cut of a release only blocks of the extent may have been given back |
| `KuroRelease.ReleasePair` | kernel/fs/kurofs.cpp:1413-1420 | success clears exactly the bits of both extents |
| `KuroOwner.SlotRoundTrip` | kernel/fs/kurofs.cpp:421-494 | a stored inode reads back as itself and a stored tombstone as a free slot |
| `KuroOwner.ReadSlot` | kernel/fs/kurofs.cpp:1526-1554 | returns the inode of the slot, NotFound for a free one, or why it cannot be read |
| `KuroOwner.PublishedSlot` | kernel/fs/kurofs.cpp:1778-1793 | a publication leaves every other slot as it was, free ones included |
| `KuroOwner.FindUniqueParent` | kernel/fs/kurofs.cpp:1134-1172 | success names the one directory that lists the child, which lists it once; NotFound means nobody lists it; any other answer of a reliable device means something cannot be read or the child is listed more than once |
| `KuroTree.TopIsSimple` | kernel/fs/kurofs.cpp:1174-1205 | no inode is met twice on a way from parent to parent that ends at the root or at an inode nobody lists |
| `KuroTree.TopIsShort` | kernel/fs/kurofs.cpp:1174-1205 | such a way is no longer than the inode table, so the bound of the search loops cuts nothing off |
| `KuroTree.InodeReachesRoot` | kernel/fs/kurofs.cpp:1174-1205 | success says whether the way up ends at the root; on a reliable device and a readable volume it fails exactly if the way has no end, which is a cycle, or a parent is ambiguous |
| `KuroTree.CreatesCycle` | kernel/fs/kurofs.cpp:1207-1235 | answers yes only if the moved directory is the destination or one of its ancestors, and no exactly, on a reliable device, if a way that avoids it joins the destination to the root and everything searched can be read |
| `KuroCheck.CheckOwnership` | kernel/fs/kurofs.cpp:1293-1324 | passes only if every slot can be read, its flags are known, the root has none and every other inode has at most one parent; passes every healthy volume on a reliable device |
| `KuroCheck.CheckEntries` | kernel/fs/kurofs.cpp:2670-2698 | passes exactly, on a reliable device, directories that can be read and list neither the root nor themselves nor a name or child twice |
| `KuroCheck.CheckInodes` | kernel/fs/kurofs.cpp:2656-2710 | passes only if every inode owns its extent, has one link and known flags, lists what a directory may list and shares no block with another one |
| `KuroCheck.CheckParents` | kernel/fs/kurofs.cpp:2712-2735 | passes only if every inode has at most one parent and no directory is its own ancestor |
| `KuroCheck.CheckVolume` | kernel/fs/kurofs.cpp:1502-1510 | passes exactly, on a reliable device, the volumes on which all of this holds |
| `KuroCheck.ListedOnce` | kernel/fs/kurofs.cpp:1134-1172 | on such a volume two directories that list the same inode are one, and list it once |
| `KuroPlan.PlanCrashPoint` | kernel/fs/kurofs.cpp:1248-1264 | a power cut during writes that are each flushed before the next leaves the effect of the first few of them |
| `KuroMoveRecover.WritePair` | kernel/fs/kurofs.cpp:1248-1264 | the device sees a prefix of: secondary copy, flush, primary copy, flush; all of it on success |
| `KuroMoveRecover.VerdictOf` | kernel/fs/kurofs.cpp:1326-1395 | recovery undoes, finishes or completes according to the two parents, and refuses exactly the state with the source alone updated |
| `KuroMoveRecover.RecoverStates` | kernel/fs/kurofs.cpp:1359-1420 | every single write of a recovery leads from a recoverable state to a recoverable one, the last to a quiet one with both parents in step |
| `KuroMoveRecover.FreedKeeps` | kernel/fs/kurofs.cpp:1350-1420 | giving back the versions not in use keeps both directories as they are |
| `KuroMoveRecover.RecoverCut` | kernel/fs/kurofs.cpp:1359-1420 | wherever a recovery is cut the state stays recoverable; a completed one is flushed, quiet and has both directories as before or both as after |
| `KuroMoveRecover.Recover` | kernel/fs/kurofs.cpp:1359-1420 | carries out a prefix of that plan and then the releases; success clears exactly the bits of the two versions not in use, the new ones after undoing and the old ones otherwise, and no other; on a reliable device it gives the verdict's error or, from a recoverable state, success |
| `KuroMoveRecover.RecoverBits` | kernel/fs/kurofs.cpp:1359-1420 | the bitmap after a completed recovery is the one before it with the blocks of the unused versions free |
| `KuroMount.SelectOf` | kernel/fs/kurofs.cpp:1456-1495 | of copies that know one move, mounting goes on if one can be read and picks the announcement exactly if a copy that announces it was read |
| `KuroMount.PassedOverIff` | kernel/fs/kurofs.cpp:1456-1495 | an announcement is passed over exactly if the only copy that makes it could not be read |
| `KuroMount.HalfDoneIsUnhealthy` | kernel/fs/kurofs.cpp:1134-1172 | a volume with only the destination updated fails the checks of mounting, whatever else is on it |
| `KuroMount.MountCut` | kernel/fs/kurofs.cpp:1449-1513 | a mount keeps a recoverable volume recoverable at every power cut, and success leaves both parents in step |
| `KuroMount.Mount` | kernel/fs/kurofs.cpp:1449-1513 | selects, recovers and checks on a device that may fail at any access; success means a healthy volume with both parents in step, gives back exactly the blocks of the unused versions if it noticed an announcement and writes nothing otherwise, and leaves the move announced exactly if the only copy that announces it could not be read; on a reliable device a recoverable volume ends settled and withdrawn and is handed out exactly if it is healthy; an announcement recovery cannot handle stops every mount that reads it before any write |
| `KuroMount.OutdatedIsRefused` | kernel/fs/kurofs.cpp:1326-1395 | an announcement one of whose parents has a later revision is refused as corrupt |
| `KuroMount.UpdateOutdates` | kernel/fs/kurofs.cpp:1758-1795 | after a completed move the next update of either parent makes a standing announcement such a one |
| `KuroMovePrepare.DecodedWithout` | kernel/fs/kurofs.cpp:1001-1067 | taking one record out of a directory's bytes takes exactly that entry out of its list |
| `KuroMovePrepare.PrepareWithout` | kernel/fs/kurofs.cpp:1001-1067 | a fresh first-fit extent holds the source without one entry, or nothing if it becomes empty; a failure other than a device error leaves the bitmap as it was; no allocated block is touched |
| `KuroMovePrepare.PrepareWith` | kernel/fs/kurofs.cpp:1069-1132 | a fresh first-fit extent holds the destination with the new entry at its end; the same for failures |
| `KuroMovePlan.MoveStates` | kernel/fs/kurofs.cpp:2622-2644 | every write of the move leads to a state with all four versions stored, recoverable, and at the end quiet with both parents updated |
| `KuroMovePlan.PublishCut` | kernel/fs/kurofs.cpp:2622-2649 | from the announcement on every power cut is recoverable, and success is flushed with both directories as after |
| `KuroMoveJob.ReadySane` | kernel/fs/kurofs.cpp:2604-2620 | the record a move announces always passes the validity rules recovery reads it with |
| `KuroMoveJob.AttemptCut` | kernel/fs/kurofs.cpp:2586-2650 | a power cut at any moment of a move, feature upgrade and preparation included, leaves both directories untouched and nothing announced, or a state mounting can settle |
| `KuroMoveJob.PrepareBoth` | kernel/fs/kurofs.cpp:2589-2603 | both next versions in fresh extents apart from each other and from the old ones, their blocks the only ones taken, or neither and, but for device errors, the bitmap as it was; succeeds on a reliable device if both fit |
| `KuroMoveJob.AttemptBlocks` | kernel/fs/kurofs.cpp:2586-2650 | a move that ran to its end has exchanged the blocks of the two old versions for those of the two new ones; every other bit of the bitmap is as before |
| `KuroMove.FindEntry` | kernel/fs/kurofs.cpp:2540-2552 | finds the last entry of the name in a source all of whose entries can be read |
| `KuroMove.HealthyIsValidated` | kernel/fs/kurofs.cpp:2652-2736 | a volume that passed the checks of mounting and knows ownership flags satisfies what a move starts from |
| `KuroMove.CheckMove` | kernel/fs/kurofs.cpp:2496-2584 | passes exactly, on a reliable device, if names, snapshots, types, revisions, source entry, free destination name and child, extents and the way from the destination to the root all allow the move; NotFound means the source has no such name, and a cycle is reported only if the entry is the destination or contains it |
| `KuroMove.Volume.EnsureMoveFeature` | kernel/fs/kurofs.cpp:1266-1291 | does nothing if the feature is there, refuses at the last generation, else rewrites both copies under the next one; a failure unmounts |
| `KuroMove.Volume.Publish` | kernel/fs/kurofs.cpp:2622-2644 | carries out a prefix of the plan, all of it on success, which is certain on a reliable device with everything prepared; any failure unmounts |
| `KuroMove.Volume.DirectoryMove` | kernel/fs/kurofs.cpp:2490-2650 | refused without a write, abandoned with both directories untouched at every cut and, but for device errors, the bitmap as it was, or attempted so that every cut can be settled; success is durable, takes the last entry of the name out of the source and puts it at the end of the destination under the new name, allocates exactly the new extents and frees exactly the old ones, and hands back the inodes now in the table; on a reliable device it succeeds whenever its checks pass, the generation can grow and both new versions fit |
| `KuroRemount.MountSafeIff` | kernel/fs/kurofs.cpp:1359-1420 | whatever writes are still unflushed under a mount, every cut of it can be settled exactly if the session does not read the move half done while a cut could lose the destination's publication and the two inodes are in different table sectors |
| `KuroRemount.RiskIsReal` | kernel/fs/kurofs.cpp:1397-1402 | whenever it does, the recovery's first write and a power cut leave the source updated and the destination not, which mounting refuses |
| `KuroRemount.MountKeepsFollow` | kernel/fs/kurofs.cpp:1359-1420 | a mount that is not at risk, cut or failed anywhere, leaves only images that can be settled, so that the next mount may follow |
| `KuroRemount.SessionKeepsFollow` | kernel/fs/kurofs.cpp:1449-1502 | over any number of mounts, failed or not, and power cuts, none of them starting at risk, whatever can survive can be settled |
| `KuroRemount.FailedMoveFollows` | kernel/fs/kurofs.cpp:2622-2644 | however far a failed move got, what can survive can be settled, and a mount on top of it is at risk exactly if the move stopped between the destination's inode write and its flush with the inodes in different sectors |
| `KuroRemount.NeverLost` | kernel/fs/kurofs.cpp:1359-1420 | in every state that mounting can settle both directories can be read and one of them lists the child |
| `KuroRemount.DescribesTakesOut` | kernel/fs/kurofs.cpp:2540-2552 | the new list of a source that listed the child once does not list it |
| `KuroRemount.MountedListsOnce` | kernel/fs/kurofs.cpp:1134-1172 | on a volume that passed the checks of mounting a move starts from a source that lists its child once and is its only parent |
| `KuroRemount.OneOwner` | kernel/fs/kurofs.cpp:2490-2650 | once a move from a source that listed the child once is settled, exactly one of the two directories lists it, by whether it was undone or done |
| `KuroRemount.LostByBoth` | kernel/fs/kurofs.cpp:2627-2636 | in the image a mount at risk can leave of such a move, both directories can be read and neither of them lists the child |
| `KuroRemount.DescribesMoves` | kernel/fs/kurofs.cpp:2490-2650 | every move the operation attempts takes a child the source lists and the destination does not, and lists it there |
| `KuroRemount.LastWriteMissing` | kernel/fs/kurofs.cpp:2640-2644 | a move cut before its last write is done, announced by the primary copy and not by the secondary one |
| `KuroRemount.AnnouncementStands` | kernel/fs/kurofs.cpp:1456-1495 | if the primary copy of that volume cannot be read, a mount takes the secondary one, recovers nothing and succeeds if the volume is healthy, with the announcement left standing |
| `KuroMoveOver.AttemptOver` | kernel/fs/kurofs.cpp:2586-2650 | a move on top of any unflushed writes: until its first flush both directories read as a version that could have survived before, with nothing announced; after it every cut is untouched or can be settled |
| `KuroMoveOver.FailedMoveOver` | kernel/fs/kurofs.cpp:2622-2644 | however far a move on top of any unflushed writes got, what can survive can be settled, and a mount on top of it is at risk exactly between the destination's inode write and its flush with the inodes in different sectors |
| `KuroMoveFrame.AttemptFrame` | kernel/fs/kurofs.cpp:2586-2650 | wherever power is cut during a move every inode but the two parents keeps its slot, its blocks and its contents |
| `KuroMoveFrame.RecoverFrame` | kernel/fs/kurofs.cpp:1359-1428 | so it does wherever a recovery is cut |
| `KuroMoveTree.ChildOwner` | kernel/fs/kurofs.cpp:2490-2650 | after a move the destination is the only parent of the child |
| `KuroMoveTree.MoveKeepsTop` | kernel/fs/kurofs.cpp:1207-1235 | whatever was not its own ancestor before a move is not after it |
| `KuroMoveTree.OutcomeIsHealthy` | kernel/fs/kurofs.cpp:2652-2736 | a settled move, undone or done, leaves a healthy volume healthy: every check of mounting passes again |
| `KuroMoveTree.FlagsKeepViews` | kernel/fs/kurofs.cpp:1317-1321 | rewriting the flags of any inode leaves what every readable directory decodes to as it was |
| `KuroRestart.MoveKeepsHealthy` | kernel/fs/kurofs.cpp:2490-2650 | a successful move takes a healthy volume to a healthy volume with the entry moved and nothing else changed |
| `KuroRestart.MoveCutIsMid` | kernel/fs/kurofs.cpp:2490-2650 | a power cut at any moment of a move on a healthy volume leaves nothing announced with both parents as before, or a state mounting can settle, and the rest of the volume as it was |
| `KuroRestart.MountCutIsMid` | kernel/fs/kurofs.cpp:1449-1513 | so does a power cut at any moment of the mount that follows |
| `KuroRestart.Restart` | kernel/fs/kurofs.cpp:1449-1513 | mounting after such a cut: success hands out the healthy volume with the move undone or done and nothing else changed; a device without errors always gets there; wherever the mount is cut the next one is in the same position |
| `KuroVfs.MapStatus` | scripts/dev-apply-kurofs-vfs-readonly.py:82-106 | success and NotFound are neither lost nor invented by the translation |
| `KuroVfs.FollowName` | scripts/dev-apply-kurofs-vfs-readonly.py:188-198 | follows the entry of that name to its child; a failure other than a device fault means there is none |
| `KuroVfs.ResolveComponent` | scripts/dev-apply-kurofs-vfs-readonly.py:169-198 | the same for the text up to the next separator |
| `KuroVfs.ResolvesUnique` | scripts/dev-apply-kurofs-vfs-readonly.py:149-207 | a list of components leads to at most one inode |
| `KuroVfs.NextComponent` | scripts/dev-apply-kurofs-vfs-readonly.py:169-182 | reading up to the next separator recovers the components a path was joined from |
| `KuroVfs.ResolvePath` | scripts/dev-apply-kurofs-vfs-readonly.py:149-207 | finds the one inode the path names by following each component; a failure other than a device fault means the path names nothing |
| `KuroVfs.Adapter.ResolveSlot` | scripts/dev-apply-kurofs-vfs-readonly.py:209-218 | a handle resolves exactly while it is open |
| `KuroVfs.Adapter.OpenInode` | scripts/dev-apply-kurofs-vfs-readonly.py:241-268 | every issued handle is new; a slot at the last generation is never reissued; full means every slot is open or worn out |
| `KuroVfs.Adapter.OpenFile` | scripts/dev-apply-kurofs-vfs-readonly.py:241-268 | a new handle on the inode the path names, or no change; apart from device faults and a full table it fails only for paths that name nothing |
| `KuroVfs.Adapter.CloseFile` | scripts/dev-apply-kurofs-vfs-readonly.py:270-277 | ends an open handle; a stale close changes nothing |
| `KuroVfs.Adapter.RefreshSlot` | scripts/dev-apply-kurofs-vfs-readonly.py:220-231 | takes the current inode of the same generation and type, or leaves the slot alone; on a reliable device it succeeds whenever there is one |
| `KuroVfs.Adapter.ReadFile` | scripts/dev-apply-kurofs-vfs-readonly.py:279-296 | returns the bytes the blocks of the file hold on disk now, for an open handle only; on a reliable device a directory is refused as one, and a current regular file with a valid extent is read |
| `EventRing.CompleteGuardCollisions` | kernel/diagnostics/event_ring.cpp:32-38 | two sequences share a complete guard exactly when they are an even number and its successor |
| `EventRing.GuardsIdentify` | kernel/diagnostics/event_ring.cpp:32-38 | within one slot guards identify sequence and phase |
| `EventRing.StepKeepsInv` | kernel/diagnostics/event_ring.cpp:42-98 | every step of any writer or of the reader keeps the ring invariant |
| `EventRing.RunKeepsInv` | kernel/diagnostics/event_ring.cpp:42-98 | the invariant holds in every state of every interleaving without overlapping writers |
| `EventRing.ReaderNeverTorn` | kernel/diagnostics/event_ring.cpp:42-98 | in every interleaving without overlapping writers each returned event is a record exactly as made, in strictly increasing order |
| `EventRing.RunKeepsOrdered` | kernel/diagnostics/event_ring.cpp:42-66 | when slots are reused in order the newest complete record of each slot stays in place |
| `EventRing.QuietRingHoldsNewest` | kernel/diagnostics/event_ring.cpp:42-66 | with no writer in flight the ring holds exactly the newest records |
| `EventRing.CopyRecent` | kernel/diagnostics/event_ring.cpp:68-98 | on a quiet ring returns exactly the last min(recorded, 64, capacity) records, oldest first |
| `EventRing.LappedSlotTears` | kernel/diagnostics/event_ring.cpp:42-98 | if a lapped writer is still writing, some interleaving returns a torn event |
| `EventRing.TornReadReached` | kernel/diagnostics/event_ring.cpp:42-98 | a run from the empty ring reaches such a state and its torn read |
| `EventRing.CopyBounded` | kernel/diagnostics/event_ring.cpp:14-30 | the field holds the first capacity - 1 characters and NULs to its end |
| `EventRing.Ring.Record` | kernel/diagnostics/event_ring.cpp:42-66 | an uninterrupted call adds exactly one record and keeps the ring valid |
| `Raster.ClipRect` | kernel/drivers/framebuffer.cpp:151-169 | the clipped rectangle covers exactly the pixels of the input on the screen |
| `Raster.Screen.SetDamageRegions` | scripts/dev-apply-flux-region-raster.py:123-134 | the mask is the union of the given rectangles cut to the screen |
| `Raster.Screen.ResetDamageRegions` | scripts/dev-apply-flux-region-raster.py:135-139 | drops the mask |
| `Raster.Screen.DamageContains` | scripts/dev-apply-flux-region-raster.py:80-90 | answers whether the mask lets the pixel through |
| `Raster.Screen.Fill` | scripts/dev-apply-flux-region-raster.py:173-210 | paints exactly the clipped, unmasked part, also for overlapping regions |
| `Raster.Screen.Put` | scripts/dev-apply-flux-region-raster.py:140-148 | paints the pixel exactly if clip and mask let it |
| `Raster.Screen.SetClipRect` | kernel/drivers/framebuffer.cpp:333-352 | the clip is the rectangle cut to the screen |
| `Raster.Screen.ClearAll` | kernel/drivers/framebuffer.cpp:374-379 | clears the unmasked screen and drops the clip |
| `Raster.Screen.Execute` | scripts/dev-apply-flux-region-raster.py:173-210 | one drawing command has on every pixel the effect of its specification |
| `Raster.Screen.Draw` | scripts/dev-apply-flux-region-raster.py:173-210 | any command sequence on a masked screen gives every unmasked pixel the value of the unmasked sequence and leaves every other pixel alone |
| `Raster.Screen.ScrollUp` | scripts/dev-apply-flux-region-raster.py:230-271 | each damaged pixel becomes the original one below it or the fill colour, in place, for overlapping regions; all others stay |
| `Raster.Screen.PresentRegion` | kernel/drivers/framebuffer.cpp:243-299 | the shown image equals the drawn one inside the region and is unchanged outside |
| `Raster.Screen.EndFrameRegions` | kernel/drivers/framebuffer.cpp:243-299 | the same for the union of the regions, then mask and clip are dropped |
| `Raster.Screen.EndFrame` | kernel/drivers/framebuffer.cpp:230-242 | shows the whole drawn image and drops mask and clip |
| `Raster.Screen.RenderFrame` | scripts/dev-apply-flux-region-raster.py:294-316 | a frame drawn and presented through damage regions shows the full frame inside them and the old image outside, hence the full frame if that shows nothing new outside them |
| `Elf.VirtualRangeInLoad` | boot/efi/standalone.c:68-96 | true exactly if one load segment holds the range with the wanted permissions |
| `Elf.VirtualRangeToFile` | boot/efi/standalone.c:98-132 | the file offset of the first segment whose file part backs the range, if there is one |
| `Elf.FirstBacking` | boot/efi/standalone.c:98-132 | an offset it gives lies in the file behind some segment; none means no segment backs the range |
| `Elf.CheckSegment` | boot/efi/standalone.c:464-505 | accepts exactly well-formed segments clear of all earlier ones |
| `Elf.ValidatePrograms` | boot/efi/standalone.c:452-535 | accepts exactly the tables with well-formed disjoint segments, one dynamic header, an executable entry and loaded headers, and computes the image size |
| `Elf.SegmentsEndInside` | boot/efi/standalone.c:479-489 | every accepted segment ends inside the image |
| `ElfBytes.PhdrRoundTrip` | boot/efi/standalone.c:450-453 | a program header is read at an offset exactly if its 56 bytes, written field by field, stand there |
| `ElfBytes.TableRoundTrip` | boot/efi/standalone.c:441-453 | the table read from a file is the list of program headers whose bytes stand there one after the other |
| `ElfBytes.HeaderRoundTrip` | boot/efi/standalone.c:432-450 | entry, table offset and count are read exactly where the written file header has them |
| `ElfBytes.DynamicRoundTrip` | boot/efi/standalone.c:197-203 | the same for the 16-byte entries of the dynamic section |
| `ElfBytes.RelocationsRoundTrip` | boot/efi/standalone.c:275-279 | the same for the 24-byte relocations |
| `ElfRelocate.ReadDynamic` | boot/efi/standalone.c:202-246 | accepts exactly terminated sections without unsupported or repeated tags, and returns their values |
| `ElfRelocate.ValidateRelocations` | boot/efi/standalone.c:278-308 | accepts exactly ascending relative relocations of aligned words in writable non-executable memory |
| `ElfRelocate.RelocationsDisjoint` | boot/efi/standalone.c:278-308 | accepted relocations never share an image byte |
| `ElfRelocate.ApplyRelocations` | boot/efi/standalone.c:311-320 | every image byte is the last relocated word over it, or unchanged |
| `ElfLoad.CopiesInsideIff` | boot/efi/standalone.c:579-586 | for accepted tables all copies stay inside file and image exactly if those of the skipped headers do |
| `ElfLoad.HollowHeaderAccepted` | boot/efi/standalone.c:464-466 | a concrete table that passes every check, the dynamic header's included, and one of whose copies leaves the image |
| `ElfLoad.CopySegments` | boot/efi/standalone.c:579-586 | every image byte is the file byte of the last copy over it, or zero |
| `ElfLoad.CheckDynamicHeader` | boot/efi/standalone.c:520-556 | accepts exactly well-formed dynamic headers that a writable segment backs at the same offset |
| `ElfLoad.FindRelocations` | boot/efi/standalone.c:160-276 | succeeds exactly if the section describes a table in the file, and returns that table |
| `ElfLoad.LoadKernel` | boot/efi/standalone.c:411-607 | succeeds exactly for loadable files with an allocation, holding just the granted pages; whatever headers the file was written from, the entry is theirs above the base and the image spans their segments; the image has the specified bytes; every page requested by a failed load has been given back |
| `ElfLoad.HeadedRead` | boot/efi/standalone.c:432-450 | a file that begins with a written header and has its program headers where it says is accepted and read as written |
| `ElfLoad.AcceptedIsHeaded` | boot/efi/standalone.c:432-450 | every file with an accepted header is one of those |
| `ElfLoad.LoadedImage` | boot/efi/standalone.c:160-607 | every slot reads base + addend, every other byte is the covering segment's file byte or zero, executable and read-only bytes are unaltered, the entry is executable |
| `ElfKernel.WrittenLoadable` | boot/efi/standalone.c:160-607 | a file written from headers, dynamic entries and relocations can be loaded at a base exactly if those parts pass the loader's rules |
| `ElfKernel.WrittenImage` | boot/efi/standalone.c:160-607 | the image loaded from such a file: every slot of its relocations reads base + addend, every other byte is the file byte of the segment over it or zero, and the written entry is executable |
| `MemoryMap.NormalizeType` | boot/efi/standalone.c:657-671 | conventional, ACPI-reclaimable, ACPI non-volatile and memory-mapped I/O memory exactly for their firmware types, and always a known type |
| `MemoryMap.NormalizeMemoryMap` | boot/efi/standalone.c:731-767 | succeeds exactly for well-sized maps of valid descriptors that fit; the regions are those of the nonempty descriptors, each once and in order, with start, pages and attributes kept and the type translated |
| `MemoryMap.RegionsNormalize` | boot/efi/standalone.c:731-767 | there is an increasing choice of positions, all the nonempty descriptors' and no others, whose descriptors the regions describe |
| `MemoryMap.PagesConserved` | boot/efi/standalone.c:657-671 | normalization neither loses nor invents a page of any memory type |
| `MemoryMap.NormalizedOk` | boot/efi/standalone.c:731-767 | every region of a valid map satisfies the kernel's region checks |
| `ExitBoot.AllocateMapBuffers` | boot/efi/standalone.c:673-729 | success holds exactly two new buffers, failure none; a cooperative firmware's map still fits them when 62 descriptors were added to it |
| `ExitBoot.TryExit` | boot/efi/standalone.c:786-819 | an exit that succeeded was made with the key of the map just normalized; a refused stale key leads to another attempt, an accepted one ends it |
| `ExitBoot.LeaveFirmware` | boot/efi/standalone.c:769-824 | success hands over the regions of the map in force at exit; failure has released every buffer; at most 64 exits; no call follows a successful exit; a cooperative firmware is left exactly if it refuses fewer than 64 stale keys |
| `Handoff.PrepareFramebuffer` | boot/efi/standalone.c:609-655 | succeeds exactly for complete modes with a fitting buffer in one of the two supported formats, and swaps the format number |
| `Handoff.LoadFile` | boot/efi/standalone.c:323-409 | success gives a nonempty file; a missing file leaves nothing behind unless the page allocation itself said not found; all by the firmware's answers |
| `Handoff.RequestBootFlags` | boot/efi/standalone.c:846-899 | the first meaningful key among 150 polls decides, else the desktop |
| `Handoff.CompleteBootInfo` | boot/efi/standalone.c:945-1004 | the record carries the loaded kernel, the regions, the screen and the package as they are, the installer flag exactly if the package loaded and the chosen flags otherwise, and is accepted by the kernel exactly if the firmware's answers are suitable |
| `Handoff.ValidMemoryMap` | kernel/main.cpp:144-188 | accepts exactly aligned, bounded lists of valid regions with no usable page under the kernel |
| `Handoff.ParseBootArgument` | kernel/main.cpp:190-242 | accepts exactly the records of the protocol; installer, diagnostics and desktop exactly by their flags, safe mode by its own or the diagnostics flag |
| `Handoff.HandoffAccepted` | kernel/main.cpp:115-242 | the kernel accepts what the loader completed, for a loadable kernel and a valid map, exactly when the firmware's answers are suitably aligned and placed |
| `Layout.ViewDepth` | sdk/src/libui.c:41-53 | the length of a chain of views, each the first one that carries the parent id of the one before, followed until no view continues it or for three |
| `Layout.BuildNative` | sdk/src/libui.c:454-509 | succeeds exactly for drawable scenes, with the walk's commands; they show exactly the visible views ranked from the scroll position up to the last row, in order |
| `Layout.DrawnShowsWindow` | sdk/src/libui.c:454-509 | the same of every scene's walk: command k shows the view with scroll + k visible ones before it, and no view of the window is missing |
| `Layout.HitTest` | sdk/src/libui.c:425-452 | whenever the scene can be drawn, the id of the first drawn interactive view whose rectangle contains the point, else 0 |
| `Layout.DrawnInLimits` | sdk/src/libui.c:377-416 | every drawn rectangle passes the kernel's coordinate limits |
| `Layout.DrawnOverlap` | sdk/src/libui.c:377-416 | two drawn views overlap exactly if they are drawn in succession, both tiles or both metric cards, the run of that type before the later one does not end a row, and the earlier is deeper, by two levels for tiles, by one for metric cards |
| `Layout.DeepTileOverlaps` | sdk/src/libui.c:377-416 | a drawable scene of four views two of whose tiles overlap |
| `Layout.CommandsNameViews` | sdk/src/libui.c:454-509 | commands name visible views in order, at most the visible rows, with the height of their type |
| `PackagePath.ValidComponent` | kernel/install/package.cpp:40-56 | accepts exactly 8.3 names of the allowed characters |
| `PackagePath.ValidPath` | kernel/install/package.cpp:58-84 | accepts exactly NUL-padded fields whose path has only such components |
| `PackagePath.ComponentsAgree` | scripts/build-install-package.py:25-34 | the builder's component rule and the kernel's are the same |
| `PackagePath.PathsAgree` | scripts/build-install-package.py:37-42 | the kernel accepts the builder's paths without empty components and no others |
| `PackagePath.FieldRoundTrip` | scripts/build-install-package.py:149-151 | a builder's path survives its padded field and is accepted exactly without empty components |
| `PackagePath.BuilderTakesMore` | scripts/build-install-package.py:37-42 | the bare root and doubled separators pass the builder and not the kernel |
| `Package.Collect` | scripts/build-install-package.py:126-137 | the records in key order, exactly if all are valid and no key repeats |
| `Package.AscendingUnique` | scripts/build-install-package.py:137-137 | only one key-ascending sequence has the given records |
| `Package.LayOut` | scripts/build-install-package.py:138-168 | entries and data of the specified layout, exactly if it fits into 16 MiB |
| `Package.SerializePackage` | scripts/build-install-package.py:119-190 | succeeds exactly for acceptable lists, with the one package of their sorted records |
| `Package.OrderIrrelevant` | scripts/build-install-package.py:119-190 | a permutation of the input is acceptable exactly if the input is, and gives the same package |
| `PackageRead.Parse` | kernel/install/package.cpp:122-181 | accepts exactly packages with a valid header whose entries are valid, ascending in the file and not repeated |
| `PackageRead.FileAt` | kernel/install/package.cpp:88-120 | returns the entry's fields exactly if path, destination, range and checksum are valid |
| `PackageRead.Disjoint` | scripts/build-install-package.py:143-146 | files start at multiples of 16 behind the manifest and do not overlap |
| `PackageRead.PackageRoundTrip` | kernel/install/package.cpp:88-181 | the kernel accepts a written package exactly if no path has an empty component, and reads back path, destination and contents of every record |
| `Numbers.ParseU64` | kernel/core/string.cpp:115-162 | accepts exactly numerals whose mathematical value fits in 64 bits, and returns it |
| `Numbers.StepFits` | kernel/core/string.cpp:147-149 | the division test is exactly the overflow test |
| `Numbers.DigitsDenote` | kernel/core/string.cpp:164-183 | the digits of a number denote it and are digits of the base |
| `Numbers.FormatU64` | kernel/core/string.cpp:164-183 | the buffer holds as many digits as fit and a NUL; nothing outside it changes; the scratch buffer never truncates |
| `Numbers.FormatParses` | kernel/core/string.cpp:115-183 | parsing inverts formatting in every base, and decimal without naming the base |
| `Numbers.FormatI64` | kernel/core/string.cpp:185-199 | sign and digits of every 64-bit value, down to the smallest |

## Left out

- KuroDirectoryRun.RunRefinesList: the run holds appends to one directory; appends to other directories and writes of file contents are not among its events, because that they own other blocks is an invariant of the whole volume that is not modelled.
- KuroMove.Volume.DirectoryMove: starts from what mounting has checked of every inode, that it owns its extent and has one link and flags the volume allows; a move within one directory, which is a rename, is not modelled.
- KuroMount.Mount: makes the checks of mounting but not its rewriting. The original also raises the ownership feature in both superblocks where it is missing, and updates every inode whose flags do not say whether it is attached, which its consistency check then requires; neither write is modelled. `KuroMoveTree.FlagsKeepViews` is what the second one leaves alone.
- KuroCheck.CheckParents: does not compare flags with attachment, because the rewriting that makes them agree is not modelled.
- KuroMoveState.Stale: a superblock copy of an older generation has the same geometry, which no operation after formatting changes.
- EventRing.ReaderNeverTorn: assumes no record begins on a slot that another one is still writing; steps are sequentially consistent, hardware memory ordering is not modelled.
- EventRing.CopyRecent: the whole method is stated for a ring with no writer in flight; the concurrent reader is the step machine.
- ElfLoad.LoadKernel: assumes the exact condition of CopiesInsideIff on load headers without memory, because the original writes outside the image otherwise.
- ExitBoot.LeaveFirmware: which error a failing firmware leads to is not stated; that the loader is let go is stated of a cooperative firmware whose map leaves 212 of the 4096 regions free and grows by at most one descriptor at a time.
- Raster.Screen.Fill: colours are opaque values; conversion to the native pixel format is not modelled.
- Layout.HitTest: agreement is stated for scenes that can be drawn; a scene with an unknown view type is refused by drawing and skipped by hit testing.
- PackagePath.CheckedPath: characters are code points below 256; a path with a larger one is refused by the original's ASCII encoding.
- KuroFS format, file writing, truncation, removal and rename: not modelled; a mounted volume with valid geometry is the starting point.
- Checksum strength: no property of CRC32 is used, so detection of corruption is not stated.
- Bytes of events, boot flags other than the four known ones and the RSDP search: no property depends on them.
- Scene editing, flags, colours and values of UI commands: only geometry and hit testing are modelled.
- Drivers, window management, applications, scheduler, terminal and build tooling other than the installer package: easier members only.
