/**
 Directories: fixed-size checksummed records inside a directory inode's extent,
 each binding a name to a child's stable generation and type.
 */
module KuroDirectory {
  import opened Bytes
  import opened KuroDisk
  import opened KuroBitmap
  import opened KuroAlloc
  import opened KuroInode

  type Checksum = seq<Byte> -> U32

  /** The bytes of a C string before its terminator. */
  type Name = s: seq<Byte> | forall i :: 0 <= i < |s| ==> s[i] != 0 witness []

  const SLASH: Byte := 47
  const DOT: Byte := 46

  datatype Entry = Entry(name: seq<Byte>, inodeId: U64, generation: U32, kind: U32)

  // ----- Names -----

  predicate HasSlash(s: seq<Byte>) {
    exists i :: 0 <= i < |s| && s[i] == SLASH
  }

  function NameStatus(name: Name): (s: Status) {
    if name == [] then InvalidArgument
    else if HasSlash(if |name| <= 64 then name else name[..64]) then InvalidArgument
    else if |name| > 63 then NameTooLong
    else if name == [DOT] || name == [DOT, DOT] then InvalidArgument
    else Ok
  }

  method ParseDirectoryName(name: Name) returns (status: Status, length: nat)
    ensures status == NameStatus(name)
    ensures status == Ok ==> length == |name|
  {
    length := 0;
    if |name| == 0 {
      return InvalidArgument, 0;
    }
    while length <= 63 && length < |name|
      invariant 0 <= length <= |name| && length <= 64
      invariant !HasSlash(name[..length])
    {
      if name[length] == SLASH {
        assert (if |name| <= 64 then name else name[..64])[length] == SLASH;
        return InvalidArgument, 0;
      }
      length := length + 1;
    }
    assert name[..length] == if |name| <= 64 then name else name[..64];
    if length > 63 {
      return NameTooLong, 0;
    }
    if (length == 1 && name[0] == DOT) || (length == 2 && name[0] == DOT && name[1] == DOT) {
      assert name == [DOT] || name == [DOT, DOT];
      return InvalidArgument, 0;
    }
    status := Ok;
  }

  // ----- Records -----

  function RecordBody(e: Entry): (r: seq<Byte>)
    requires |e.name| <= 63
    ensures |r| == 124
  {
    StoreU64(e.inodeId) + StoreU32(e.generation) + StoreU32(e.kind) + StoreU32(|e.name|)
    + e.name + Zeros(104 - |e.name|)
  }

  function EncodeRecord(crc: Checksum, e: Entry): (r: seq<Byte>)
    requires |e.name| <= 63
    ensures |r| == 128
  {
    RecordBody(e) + StoreU32(crc(RecordBody(e)))
  }

  predicate GoodNameByte(b: Byte) {
    b != 0 && b != SLASH
  }

  predicate EntryAcceptable(e: Entry) {
    && e.inodeId != 0 && e.generation != 0
    && (e.kind == REGULAR || e.kind == DIRECTORY)
    && 0 < |e.name| <= 63
    && forall i :: 0 <= i < |e.name| ==> GoodNameByte(e.name[i])
  }

  function DecodeRecord(crc: Checksum, record: seq<Byte>): (r: Result<Entry>)
    requires |record| == 128
    ensures r.Success? ==> EntryAcceptable(r.value)
    ensures r.Failure? ==> r.error == CorruptDirectory
  {
    if LoadU32(record[124..128]) != crc(record[..124]) then Failure(CorruptDirectory)
    else
      var length := LoadU32(record[16..20]);
      if length == 0 || length > 63 then Failure(CorruptDirectory)
      else
        var e := Entry(record[20..20 + length], LoadU64(record[0..8]), LoadU32(record[8..12]), LoadU32(record[12..16]));
        if EntryAcceptable(e) then Success(e) else Failure(CorruptDirectory)
  }

  /** A written record reads back as exactly the entry it was written for. */
  lemma RecordRoundTrip(crc: Checksum, e: Entry)
    requires EntryAcceptable(e)
    ensures DecodeRecord(crc, EncodeRecord(crc, e)) == Success(e)
  {
    hide StoreU64, StoreU32, LoadU64, LoadU32, Zeros;
    var r := EncodeRecord(crc, e);
    assert r[..124] == RecordBody(e) && r[124..128] == StoreU32(crc(RecordBody(e)));
    assert r[0..8] == StoreU64(e.inodeId) && r[8..12] == StoreU32(e.generation);
    assert r[12..16] == StoreU32(e.kind) && r[16..20] == StoreU32(|e.name|);
    assert r[20..20 + |e.name|] == e.name;
    U32RoundTrip(crc(RecordBody(e)));
    U64RoundTrip(e.inodeId);
    U32RoundTrip(e.generation);
    U32RoundTrip(e.kind);
    U32RoundTrip(|e.name|);
  }

  // ----- What a directory holds -----

  predicate ChildMatches(read: Result<Inode>, e: Entry) {
    read.Success? && read.value.generation == e.generation && read.value.kind == e.kind
  }

  function CheckedEntry(g: Geometry, crc: Checksum, d: Disk, record: seq<Byte>): (r: Result<Entry>)
    requires g.Valid(|d|)
  {
    if |record| != 128 then Failure(CorruptDirectory)
    else
      var decoded := DecodeRecord(crc, record);
      if decoded.Failure? then decoded
      else if ChildMatches(InodeAt(g, crc, d, decoded.value.inodeId), decoded.value) then decoded
      else Failure(CorruptDirectory)
  }

  /** Why the snapshot cannot be used as a directory, or Ok. */
  function DirectoryStatus(g: Geometry, crc: Checksum, d: Disk, dir: Inode): Status
    requires g.Valid(|d|)
  {
    var read := InodeAt(g, crc, d, dir.id);
    if read.Failure? then read.error
    else if read.value != dir then StaleInode
    else if dir.kind != DIRECTORY then NotDirectory
    else if dir.size % 128 != 0 then CorruptDirectory
    else Ok
  }

  ghost function EntryAt(g: Geometry, crc: Checksum, d: Disk, dir: Inode, index: U64): (r: Result<Entry>)
    requires g.Valid(|d|)
    ensures r == Failure(NotFound) ==> index >= dir.size / 128
  {
    if DirectoryStatus(g, crc, d, dir) != Ok then Failure(DirectoryStatus(g, crc, d, dir))
    else if index >= dir.size / 128 then Failure(NotFound)
    else
      var data := DataAt(g, crc, d, dir, index * 128, 128);
      if data.Failure? then Failure(data.error) else CheckedEntry(g, crc, d, data.value)
  }

  /** The first n entries in order, or the first failure. */
  ghost function EntriesUpTo(g: Geometry, crc: Checksum, d: Disk, dir: Inode, n: U64): (r: Result<seq<Entry>>)
    requires g.Valid(|d|)
    ensures r.Success? ==> |r.value| == n
  {
    if n == 0 then Success([])
    else
      var before := EntriesUpTo(g, crc, d, dir, n - 1);
      if before.Failure? then before
      else
        var e := EntryAt(g, crc, d, dir, n - 1);
        if e.Failure? then Failure(e.error) else Success(before.value + [e.value])
  }

  /** What the on-disk directory decodes to. */
  ghost function View(g: Geometry, crc: Checksum, d: Disk, id: U64): (r: Result<seq<Entry>>)
    requires g.Valid(|d|)
  {
    var read := InodeAt(g, crc, d, id);
    if read.Failure? then Failure(read.error)
    else if DirectoryStatus(g, crc, d, read.value) != Ok then Failure(DirectoryStatus(g, crc, d, read.value))
    else EntriesUpTo(g, crc, d, read.value, read.value.size / 128)
  }

  lemma {:induction false} EntriesPrefix(g: Geometry, crc: Checksum, d: Disk, dir: Inode, m: U64, n: U64)
    requires g.Valid(|d|) && m <= n
    requires EntriesUpTo(g, crc, d, dir, n).Success?
    ensures EntriesUpTo(g, crc, d, dir, m) == Success(EntriesUpTo(g, crc, d, dir, n).value[..m])
    ensures m < n ==> EntryAt(g, crc, d, dir, m) == Success(EntriesUpTo(g, crc, d, dir, n).value[m])
    decreases n
  {
    hide EntryAt;
    var all := EntriesUpTo(g, crc, d, dir, n).value;
    if m == n {
      assert all[..m] == all;
    } else {
      var shorter := EntriesUpTo(g, crc, d, dir, n - 1).value;
      EntriesPrefix(g, crc, d, dir, m, n - 1);
      assert all[..m] == shorter[..m];
      assert m < n - 1 ==> all[m] == shorter[m];
    }
  }

  // ----- Operations that only read -----

  method RequireCurrentSnapshot(fs: FileSystem, snapshot: Inode) returns (status: Status, current: Inode)
    requires fs.Ready()
    ensures status == Ok ==>
      && fs.mounted && current == snapshot
      && InodeAt(fs.geometry, fs.checksum, fs.device.sectors, snapshot.id) == Success(snapshot)
    ensures !fs.mounted ==> status == NotMounted || status == InvalidArgument
    ensures fs.mounted && status != Ok && status != BlockDeviceError ==>
      var read := InodeAt(fs.geometry, fs.checksum, fs.device.sectors, snapshot.id);
      if read.Success? then status == StaleInode && read.value != snapshot else status == read.error
    ensures fs.device.reliable ==> status != BlockDeviceError
  {
    status, current := ReadInode(fs, snapshot.id);
    if status == Ok && current != snapshot {
      status := StaleInode;
    }
  }

  method DirectoryEntryAt(fs: FileSystem, dir: Inode, index: U64) returns (status: Status, output: Entry)
    requires fs.Ready()
    ensures !fs.mounted ==> status == NotMounted
    ensures fs.mounted && status == Ok ==>
      EntryAt(fs.geometry, fs.checksum, fs.device.sectors, dir, index) == Success(output)
    // A device error while reading the child is reported as corruption too.
    ensures fs.mounted && status != Ok && status != BlockDeviceError && status != CorruptDirectory ==>
      EntryAt(fs.geometry, fs.checksum, fs.device.sectors, dir, index) == Failure(status)
    ensures fs.device.reliable && fs.mounted && status != Ok ==>
      EntryAt(fs.geometry, fs.checksum, fs.device.sectors, dir, index) == Failure(status)
  {
    hide InodeAt, DataAt, DecodeRecord;
    output := Entry([], 0, 0, 0);
    if !fs.mounted {
      return NotMounted, output;
    }
    var current: Inode;
    status, current := RequireCurrentSnapshot(fs, dir);
    if status != Ok {
      return;
    }
    if current.kind != DIRECTORY {
      return NotDirectory, output;
    }
    if current.size % 128 != 0 {
      return CorruptDirectory, output;
    }
    if index >= current.size / 128 {
      return NotFound, output;
    }
    var record: seq<Byte>;
    status, record := ReadInodeData(fs, current, index * 128, 128);
    if status != Ok {
      return;
    }
    if |record| != 128 {
      return CorruptDirectory, output;
    }
    var decoded := DecodeRecord(fs.checksum, record);
    if decoded.Failure? {
      return decoded.error, output;
    }
    output := decoded.value;
    var child: Inode;
    status, child := ReadInode(fs, output.inodeId);
    if status != Ok || child.generation != output.generation || child.kind != output.kind {
      status := CorruptDirectory;
    }
  }

  predicate Named(entries: seq<Entry>, name: seq<Byte>) {
    exists i :: 0 <= i < |entries| && entries[i].name == name
  }

  /** The entry at index is the first one called name, and everything before it is sound. */
  ghost predicate FirstNamed(g: Geometry, crc: Checksum, d: Disk, dir: Inode, name: Name, index: U64, e: Entry)
    requires g.Valid(|d|)
  {
    && EntriesUpTo(g, crc, d, dir, index).Success?
    && !Named(EntriesUpTo(g, crc, d, dir, index).value, name)
    && EntryAt(g, crc, d, dir, index) == Success(e)
    && e.name == name
  }

  /** No position of the directory is the first entry of that name. */
  ghost predicate NeverNamed(g: Geometry, crc: Checksum, d: Disk, dir: Inode, name: Name)
    requires g.Valid(|d|)
  {
    forall index: U64, e: Entry :: !FirstNamed(g, crc, d, dir, name, index, e)
  }

  lemma StoppedBefore(g: Geometry, crc: Checksum, d: Disk, dir: Inode, name: Name, stop: U64)
    requires g.Valid(|d|)
    requires EntriesUpTo(g, crc, d, dir, stop).Success? && EntryAt(g, crc, d, dir, stop).Failure?
    requires !Named(EntriesUpTo(g, crc, d, dir, stop).value, name)
    ensures NeverNamed(g, crc, d, dir, name)
  {
    hide EntryAt;
    forall index: U64, e: Entry
      ensures !FirstNamed(g, crc, d, dir, name, index, e)
    {
      if FirstNamed(g, crc, d, dir, name, index, e) {
        EntriesPrefix(g, crc, d, dir, if index < stop then index else stop, if index < stop then stop else index);
      }
    }
  }

  lemma FirstNamedUnique(
    g: Geometry, crc: Checksum, d: Disk, dir: Inode, name: Name, i: U64, e: Entry, j: U64, f: Entry)
    requires g.Valid(|d|) && FirstNamed(g, crc, d, dir, name, i, e) && FirstNamed(g, crc, d, dir, name, j, f)
    ensures i == j && e == f
  {
    hide EntryAt;
    if i < j {
      EntriesPrefix(g, crc, d, dir, i, j);
    } else if j < i {
      EntriesPrefix(g, crc, d, dir, j, i);
    }
  }

  /** The snapshot is current and every entry can be read. */
  ghost predicate Sound(g: Geometry, crc: Checksum, d: Disk, dir: Inode)
    requires g.Valid(|d|)
  {
    InodeAt(g, crc, d, dir.id) == Success(dir) && View(g, crc, d, dir.id).Success?
  }

  method DirectoryLookup(fs: FileSystem, dir: Inode, name: Name) returns (status: Status, output: Entry)
    requires fs.Ready()
    ensures NameStatus(name) != Ok ==> status == NameStatus(name)
    ensures status == Ok ==>
      exists index: U64 :: FirstNamed(fs.geometry, fs.checksum, fs.device.sectors, dir, name, index, output)
    ensures status == NotFound ==>
      && View(fs.geometry, fs.checksum, fs.device.sectors, dir.id).Success?
      && !Named(View(fs.geometry, fs.checksum, fs.device.sectors, dir.id).value, name)
    // A device error while reading a child is reported as corruption too.
    ensures fs.mounted && NameStatus(name) == Ok && status !in {Ok, BlockDeviceError, CorruptDirectory} ==>
      NeverNamed(fs.geometry, fs.checksum, fs.device.sectors, dir, name)
    ensures fs.device.reliable && fs.mounted && NameStatus(name) == Ok && status != Ok ==>
      NeverNamed(fs.geometry, fs.checksum, fs.device.sectors, dir, name)
    ensures fs.device.reliable && fs.mounted && NameStatus(name) == Ok ==>
      Sound(fs.geometry, fs.checksum, fs.device.sectors, dir) ==>
      status == if Named(View(fs.geometry, fs.checksum, fs.device.sectors, dir.id).value, name) then Ok else NotFound
  {
    hide InodeAt, EntryAt, NeverNamed, Sound, View;
    output := Entry([], 0, 0, 0);
    var length: nat;
    status, length := ParseDirectoryName(name);
    if status != Ok {
      return;
    }
    var current: Inode;
    status, current := RequireCurrentSnapshot(fs, dir);
    if status != Ok {
      NoEntriesAt(fs.geometry, fs.checksum, fs.device.sectors, dir, name);
      return;
    }
    if current.kind != DIRECTORY {
      NoEntriesAt(fs.geometry, fs.checksum, fs.device.sectors, dir, name);
      return NotDirectory, output;
    }
    if current.size % 128 != 0 {
      NoEntriesAt(fs.geometry, fs.checksum, fs.device.sectors, dir, name);
      return CorruptDirectory, output;
    }
    var index: U64, count: U64 := 0, current.size / 128;
    while index < count
      invariant 0 <= index <= count
      invariant EntriesUpTo(fs.geometry, fs.checksum, fs.device.sectors, dir, index).Success?
      invariant !Named(EntriesUpTo(fs.geometry, fs.checksum, fs.device.sectors, dir, index).value, name)
    {
      var entry: Entry;
      status, entry := DirectoryEntryAt(fs, current, index);
      if status != Ok {
        if EntryAt(fs.geometry, fs.checksum, fs.device.sectors, dir, index).Failure? {
          StoppedBefore(fs.geometry, fs.checksum, fs.device.sectors, dir, name, index);
          BadEntryIsUnsound(fs.geometry, fs.checksum, fs.device.sectors, dir, index);
        }
        return;
      }
      if entry.name == name {
        assert FirstNamed(fs.geometry, fs.checksum, fs.device.sectors, dir, name, index, entry);
        FirstIsNamed(fs.geometry, fs.checksum, fs.device.sectors, dir, name, index, entry);
        return Ok, entry;
      }
      index := index + 1;
    }
    PastTheEnd(fs.geometry, fs.checksum, fs.device.sectors, dir, count);
    WholeView(fs.geometry, fs.checksum, fs.device.sectors, dir);
    StoppedBefore(fs.geometry, fs.checksum, fs.device.sectors, dir, name, count);
    status := NotFound;
  }

  lemma PastTheEnd(g: Geometry, crc: Checksum, d: Disk, dir: Inode, index: U64)
    requires g.Valid(|d|)
    ensures index >= dir.size / 128 ==> EntryAt(g, crc, d, dir, index).Failure?
  {
  }

  lemma NoEntriesAt(g: Geometry, crc: Checksum, d: Disk, dir: Inode, name: Name)
    requires g.Valid(|d|)
    ensures DirectoryStatus(g, crc, d, dir) != Ok ==> NeverNamed(g, crc, d, dir, name) && !Sound(g, crc, d, dir)
  {
  }

  lemma BadEntryIsUnsound(g: Geometry, crc: Checksum, d: Disk, dir: Inode, index: U64)
    requires g.Valid(|d|) && index < dir.size / 128 && EntryAt(g, crc, d, dir, index).Failure?
    ensures !Sound(g, crc, d, dir)
  {
    hide EntryAt, InodeAt;
    if Sound(g, crc, d, dir) {
      EntriesPrefix(g, crc, d, dir, index, dir.size / 128);
    }
  }

  lemma WholeView(g: Geometry, crc: Checksum, d: Disk, dir: Inode)
    requires g.Valid(|d|) && DirectoryStatus(g, crc, d, dir) == Ok
    ensures View(g, crc, d, dir.id) == EntriesUpTo(g, crc, d, dir, dir.size / 128)
  {
  }

  /** The position of the first entry of that name. */
  function Position(entries: seq<Entry>, name: seq<Byte>): (i: nat)
    requires Named(entries, name)
    ensures i < |entries| && entries[i].name == name && !Named(entries[..i], name)
  {
    if entries[0].name == name then 0
    else
      assert exists i :: 0 <= i < |entries| - 1 && entries[1..][i].name == name by {
        var i :| 0 <= i < |entries| && entries[i].name == name;
        assert entries[1..][i - 1].name == name;
      }
      1 + Position(entries[1..], name)
  }

  /** On a sound directory a name has a first entry exactly if the list holds it, at its first place there. */
  lemma LookupExact(g: Geometry, crc: Checksum, d: Disk, dir: Inode, name: Name)
    requires g.Valid(|d|)
    requires Sound(g, crc, d, dir)
    ensures
      var entries := View(g, crc, d, dir.id).value;
      forall index: U64, e: Entry ::
        FirstNamed(g, crc, d, dir, name, index, e) <==>
        Named(entries, name) && index == Position(entries, name) && e == entries[index]
  {
    hide InodeAt, EntryAt;
    var entries, n := View(g, crc, d, dir.id).value, dir.size / 128;
    if Named(entries, name) {
      EntriesPrefix(g, crc, d, dir, Position(entries, name), n);
    }
    forall index: U64, e: Entry | FirstNamed(g, crc, d, dir, name, index, e)
      ensures Named(entries, name) && index == Position(entries, name) && e == entries[index]
    {
      FirstIsNamed(g, crc, d, dir, name, index, e);
      FirstNamedUnique(g, crc, d, dir, name, index, e, Position(entries, name), entries[Position(entries, name)]);
    }
  }

  lemma FirstIsNamed(g: Geometry, crc: Checksum, d: Disk, dir: Inode, name: Name, index: U64, e: Entry)
    requires g.Valid(|d|) && FirstNamed(g, crc, d, dir, name, index, e)
    ensures Sound(g, crc, d, dir) ==> Named(View(g, crc, d, dir.id).value, name)
  {
    hide InodeAt, EntryAt;
    if Sound(g, crc, d, dir) {
      PastTheEnd(g, crc, d, dir, index);
      EntriesPrefix(g, crc, d, dir, index, dir.size / 128);
    }
  }
}
