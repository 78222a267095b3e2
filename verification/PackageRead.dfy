/** The kernel's package reader, and what it makes of a package the builder wrote. */
module PackageRead {
  import opened Bytes
  import opened Options
  import opened PackagePath
  import opened Package

  function U32At(b: seq<Byte>, at: nat): U32
    requires at + 4 <= |b|
  {
    LoadU32(b[at..at + 4])
  }

  function U64At(b: seq<Byte>, at: nat): U64
    requires at + 8 <= |b|
  {
    LoadU64(b[at..at + 8])
  }

  datatype File = File(path: Path, offset: nat, size: nat, destination: U32)

  /** Entry e describes a file of the package with a valid path and checksum. */
  ghost predicate EntryOk(package: seq<Byte>, e: seq<Byte>, crc: Checksum)
    requires |e| == ENTRY_SIZE
  {
    && FieldOk(e[..PATH_FIELD])
    && (U32At(e, 148) == 1 || U32At(e, 148) == 2)
    && HEADER_SIZE <= U64At(e, 128) && U64At(e, 128) + U64At(e, 136) <= |package|
    && crc(package[U64At(e, 128)..U64At(e, 128) + U64At(e, 136)]) == U32At(e, 144)
  }

  function FileOf(e: seq<Byte>): File
    requires |e| == ENTRY_SIZE
  {
    File(PathIn(e[..PATH_FIELD]), U64At(e, 128), U64At(e, 136), U32At(e, 148))
  }

  function EntryAt(package: seq<Byte>, i: nat): (e: seq<Byte>)
    requires HEADER_SIZE + (i + 1) * ENTRY_SIZE <= |package|
    ensures |e| == ENTRY_SIZE
  {
    package[HEADER_SIZE + i * ENTRY_SIZE..HEADER_SIZE + (i + 1) * ENTRY_SIZE]
  }

  method FileAt(package: seq<Byte>, i: nat, crc: Checksum) returns (file: Option<File>)
    requires |package| <= UINT64_MAX && HEADER_SIZE + (i + 1) * ENTRY_SIZE <= |package|
    ensures file.Some? <==> EntryOk(package, EntryAt(package, i), crc)
    ensures file.Some? ==> file.value == FileOf(EntryAt(package, i))
  {
    var e := EntryAt(package, i);
    var ok, path := ValidPath(e[..PATH_FIELD]);
    if !ok {
      return None;
    }
    var offset, size, checksum, destination := U64At(e, 128), U64At(e, 136), U32At(e, 144), U32At(e, 148);
    if destination != 1 && destination != 2 {
      return None;
    }
    if size > UINT64_MAX - offset || offset < HEADER_SIZE || offset + size > |package| {
      return None;
    }
    if crc(package[offset..offset + size]) != checksum {
      return None;
    }
    file := Some(File(path, offset, size, destination));
  }

  ghost predicate HeaderOk(p: seq<Byte>, crc: Checksum) {
    && HEADER_SIZE <= |p| <= MAX_PACKAGE_SIZE
    && p[..8] == [75, 85, 82, 80, 75, 71, 49, 0]
    && U32At(p, 8) == 1 && U32At(p, 12) == HEADER_SIZE && U64At(p, 16) == |p|
    && 0 < U32At(p, 24) <= MAX_FILES && U32At(p, 28) == ENTRY_SIZE && U64At(p, 32) == HEADER_SIZE
    && U64At(p, 40) <= |p| && U64At(p, 40) % 16 == 0
    && HEADER_SIZE + U32At(p, 24) * ENTRY_SIZE <= U64At(p, 40)
    && crc(p[HEADER_SIZE..HEADER_SIZE + U32At(p, 24) * ENTRY_SIZE]) == U32At(p, 48)
  }

  /** Entry i is valid, lies behind the previous file, and names a file no earlier entry names. */
  ghost predicate PlacedOk(p: seq<Byte>, i: nat, floor: nat, crc: Checksum)
    requires HEADER_SIZE + (i + 1) * ENTRY_SIZE <= |p|
  {
    && EntryOk(p, EntryAt(p, i), crc) && floor <= FileOf(EntryAt(p, i)).offset
    && forall k :: 0 <= k < i ==> !SameFile(EntryAt(p, k), EntryAt(p, i))
  }

  predicate SameFile(a: seq<Byte>, b: seq<Byte>)
    requires |a| == ENTRY_SIZE && |b| == ENTRY_SIZE
  {
    U32At(a, 148) == U32At(b, 148) && a[..PATH_FIELD] == b[..PATH_FIELD]
  }

  function Floor(p: seq<Byte>, i: nat): nat
    requires 48 <= |p| && HEADER_SIZE + i * ENTRY_SIZE <= |p|
  {
    if i == 0 then U64At(p, 40) else FileOf(EntryAt(p, i - 1)).offset + FileOf(EntryAt(p, i - 1)).size
  }

  ghost predicate Parses(p: seq<Byte>, crc: Checksum) {
    && HeaderOk(p, crc)
    && forall i :: 0 <= i < U32At(p, 24) ==> PlacedOk(p, i, Floor(p, i), crc)
  }

  method Repeats(p: seq<Byte>, i: nat) returns (found: bool)
    requires HEADER_SIZE + (i + 1) * ENTRY_SIZE <= |p|
    ensures found <==> exists k :: 0 <= k < i && SameFile(EntryAt(p, k), EntryAt(p, i))
  {
    var earlier := 0;
    while earlier < i
      invariant 0 <= earlier <= i
      invariant forall k :: 0 <= k < earlier ==> !SameFile(EntryAt(p, k), EntryAt(p, i))
    {
      if SameFile(EntryAt(p, earlier), EntryAt(p, i)) {
        return true;
      }
      earlier := earlier + 1;
    }
    found := false;
  }

  method Parse(p: seq<Byte>, crc: Checksum) returns (ok: bool)
    ensures ok <==> Parses(p, crc)
  {
    hide EntryOk, SameFile, FileOf;
    if |p| < HEADER_SIZE || |p| > MAX_PACKAGE_SIZE {
      return false;
    }
    if p[..8] != [75, 85, 82, 80, 75, 71, 49, 0] || U32At(p, 8) != 1 {
      return false;
    }
    var count, dataOffset := U32At(p, 24), U64At(p, 40);
    if U32At(p, 12) != HEADER_SIZE || U64At(p, 16) != |p| || count == 0 || U32At(p, 28) != ENTRY_SIZE
       || U64At(p, 32) != HEADER_SIZE || dataOffset > |p| || dataOffset % 16 != 0 || count > MAX_FILES {
      return false;
    }
    if HEADER_SIZE + count * ENTRY_SIZE > dataOffset {
      return false;
    }
    if crc(p[HEADER_SIZE..HEADER_SIZE + count * ENTRY_SIZE]) != U32At(p, 48) {
      return false;
    }
    var previousEnd := dataOffset;
    var index := 0;
    while index < count
      invariant 0 <= index <= count && previousEnd == Floor(p, index)
      invariant forall i :: 0 <= i < index ==> PlacedOk(p, i, Floor(p, i), crc)
    {
      var file := FileAt(p, index, crc);
      if file.None? || file.value.offset < previousEnd {
        return false;
      }
      var repeated := Repeats(p, index);
      if repeated {
        return false;
      }
      previousEnd := file.value.offset + file.value.size;
      index := index + 1;
    }
    ok := true;
  }

  // ----- Reading what the builder wrote -----

  lemma HeaderFields(total: U64, count: U32, dataOffset: U64, manifest: U32)
    ensures
      var h := Header(total, count, dataOffset, manifest);
      && h[..8] == [75, 85, 82, 80, 75, 71, 49, 0] && U32At(h, 8) == 1 && U32At(h, 12) == HEADER_SIZE
      && U64At(h, 16) == total && U32At(h, 24) == count && U32At(h, 28) == ENTRY_SIZE
      && U64At(h, 32) == HEADER_SIZE && U64At(h, 40) == dataOffset && U32At(h, 48) == manifest
  {
    hide StoreU32, StoreU64, LoadU32, LoadU64;
    var h := Header(total, count, dataOffset, manifest);
    assert h[8..12] == StoreU32(1) && h[12..16] == StoreU32(HEADER_SIZE) && h[16..24] == StoreU64(total);
    assert h[24..28] == StoreU32(count) && h[28..32] == StoreU32(ENTRY_SIZE) && h[32..40] == StoreU64(HEADER_SIZE);
    assert h[40..48] == StoreU64(dataOffset) && h[48..52] == StoreU32(manifest);
    U32RoundTrip(1);
    U32RoundTrip(HEADER_SIZE);
    U64RoundTrip(total);
    U32RoundTrip(count);
    U32RoundTrip(ENTRY_SIZE);
    U64RoundTrip(HEADER_SIZE);
    U64RoundTrip(dataOffset);
    U32RoundTrip(manifest);
  }

  lemma EntryFields(r: Record, offset: U64, crc: Checksum)
    requires |r.path| < PATH_FIELD && |r.contents| <= UINT64_MAX
    ensures
      var e := EncodeEntry(r, offset, crc);
      && e[..PATH_FIELD] == r.path + Zeros(PATH_FIELD - |r.path|)
      && U64At(e, 128) == offset && U64At(e, 136) == |r.contents|
      && U32At(e, 144) == crc(r.contents) && U32At(e, 148) == r.destination
  {
    hide StoreU32, StoreU64, LoadU32, LoadU64;
    var e := EncodeEntry(r, offset, crc);
    assert e[128..136] == StoreU64(offset) && e[136..144] == StoreU64(|r.contents|);
    assert e[144..148] == StoreU32(crc(r.contents)) && e[148..152] == StoreU32(r.destination);
    U64RoundTrip(offset);
    U64RoundTrip(|r.contents|);
    U32RoundTrip(crc(r.contents));
    U32RoundTrip(r.destination);
  }

  /** The entry of record i in a manifest whose files start at base. */
  ghost function EntryOf(rs: seq<Record>, base: nat, crc: Checksum, i: nat): (e: seq<Byte>)
    requires Room(rs, base) && i < |rs|
    ensures |e| == ENTRY_SIZE
  {
    DataGrows(rs, i);
    EncodeEntry(rs[i], base + Align16(|Data(rs[..i])|), crc)
  }

  lemma EntriesStep(rs: seq<Record>, base: nat, crc: Checksum)
    requires Room(rs, base) && rs != []
    ensures Room(rs[..|rs| - 1], base)
    ensures Entries(rs, base, crc) == Entries(rs[..|rs| - 1], base, crc) + EntryOf(rs, base, crc, |rs| - 1)
  {
  }

  lemma EntryOfShorter(rs: seq<Record>, base: nat, crc: Checksum, i: nat)
    requires i < |rs| - 1 && Room(rs, base) && Room(rs[..|rs| - 1], base)
    ensures EntryOf(rs, base, crc, i) == EntryOf(rs[..|rs| - 1], base, crc, i)
  {
    assert rs[..|rs| - 1][..i] == rs[..i];
  }

  lemma {:induction false} EntrySlice(rs: seq<Record>, base: nat, crc: Checksum, i: nat)
    requires Room(rs, base) && i < |rs|
    ensures Entries(rs, base, crc)[i * ENTRY_SIZE..(i + 1) * ENTRY_SIZE] == EntryOf(rs, base, crc, i)
  {
    hide Entries, EntryOf, Room;
    var n := |rs| - 1;
    EntriesStep(rs, base, crc);
    if i < n {
      EntryOfShorter(rs, base, crc, i);
      EntrySlice(rs[..n], base, crc, i);
      SliceOfFirst(Entries(rs[..n], base, crc), EntryOf(rs, base, crc, n), i * ENTRY_SIZE, (i + 1) * ENTRY_SIZE);
    }
  }

  lemma SliceOfFirst(a: seq<Byte>, b: seq<Byte>, from: nat, to: nat)
    requires from <= to <= |a|
    ensures (a + b)[from..to] == a[from..to]
  {
  }

  /** A package as the builder leaves it. */
  ghost predicate Written(rs: seq<Record>) {
    && 0 < |rs| <= MAX_FILES && Fits(rs) && Ascending(rs)
    && forall i :: 0 <= i < |rs| ==> RecordOk(rs[i])
  }

  lemma BuiltParts(rs: seq<Record>, crc: Checksum, i: nat)
    requires Written(rs) && i < |rs|
    ensures HEADER_SIZE + (i + 1) * ENTRY_SIZE <= |Build(rs, crc)|
    ensures Offset(rs, i) + |rs[i].contents| <= |Build(rs, crc)| <= MAX_PACKAGE_SIZE
    ensures EntryAt(Build(rs, crc), i) == EncodeEntry(rs[i], Offset(rs, i), crc)
    ensures Build(rs, crc)[Offset(rs, i)..Offset(rs, i) + |rs[i].contents|] == rs[i].contents
  {
    hide EncodeEntry, Align16, Header, Data, Entries, RecordOk, Ascending;
    var base := DataOffset(|rs|);
    assert base >= HEADER_SIZE + |rs| * ENTRY_SIZE;
    var p, manifest := Build(rs, crc), Entries(rs, base, crc);
    EntrySlice(rs, base, crc, i);
    DataGrows(rs, i);
    assert p[HEADER_SIZE..HEADER_SIZE + |manifest|] == manifest;
    assert EntryAt(p, i) == manifest[i * ENTRY_SIZE..(i + 1) * ENTRY_SIZE];
    DataSlice(rs, i);
    assert p[base..] == Data(rs);
    var at := Align16(|Data(rs[..i])|);
    assert p[base + at..base + at + |rs[i].contents|] == Data(rs)[at..at + |rs[i].contents|];
  }

  lemma DataSlice(rs: seq<Record>, i: nat)
    requires i < |rs|
    ensures Align16(|Data(rs[..i])|) + |rs[i].contents| <= |Data(rs)|
    ensures Data(rs)[Align16(|Data(rs[..i])|)..Align16(|Data(rs[..i])|) + |rs[i].contents|] == rs[i].contents
  {
    hide Align16;
    DataGrows(rs, i);
    assert rs[..i + 1][..i] == rs[..i];
    var at := Align16(|Data(rs[..i])|);
    assert Data(rs[..i + 1])[at..] == rs[i].contents;
  }

  /** The files do not overlap, and each starts at a multiple of 16 behind the manifest. */
  lemma Disjoint(rs: seq<Record>, i: nat, j: nat)
    requires i < j < |rs|
    ensures HEADER_SIZE + |rs| * ENTRY_SIZE <= Offset(rs, i) && Offset(rs, i) % 16 == 0
    ensures Offset(rs, i) + |rs[i].contents| <= Offset(rs, j)
  {
    DataGrows(rs[..j], i);
    assert rs[..j][..i] == rs[..i] && rs[..j][..i + 1] == rs[..i + 1];
  }

  lemma BuiltHeader(rs: seq<Record>, crc: Checksum)
    requires Written(rs)
    ensures HeaderOk(Build(rs, crc), crc) && U32At(Build(rs, crc), 24) == |rs|
    ensures U64At(Build(rs, crc), 40) == DataOffset(|rs|)
  {
    hide Align16, Header, Data, Entries, RecordOk, Ascending, LoadU32, LoadU64;
    var base := DataOffset(|rs|);
    var p, manifest := Build(rs, crc), Entries(rs, base, crc);
    var h := Header(base + |Data(rs)|, |rs|, base, crc(manifest));
    HeaderFields(base + |Data(rs)|, |rs|, base, crc(manifest));
    assert p[..HEADER_SIZE] == h;
    assert p[..8] == h[..8] && p[8..12] == h[8..12] && p[12..16] == h[12..16] && p[16..24] == h[16..24];
    assert p[24..28] == h[24..28] && p[28..32] == h[28..32] && p[32..40] == h[32..40] && p[40..48] == h[40..48];
    assert p[48..52] == h[48..52];
    assert p[HEADER_SIZE..HEADER_SIZE + |manifest|] == manifest;
    assert base >= HEADER_SIZE + |rs| * ENTRY_SIZE;
  }

  /** One entry of a written package, as the kernel sees it. */
  lemma BuiltEntry(rs: seq<Record>, crc: Checksum, i: nat)
    requires Written(rs) && i < |rs|
    ensures HEADER_SIZE + (i + 1) * ENTRY_SIZE <= |Build(rs, crc)|
    ensures EntryOk(Build(rs, crc), EntryAt(Build(rs, crc), i), crc) <==> NoEmptyComponent(rs[i].path)
    ensures FileOf(EntryAt(Build(rs, crc), i)) == File(rs[i].path, Offset(rs, i), |rs[i].contents|, rs[i].destination)
  {
    hide EncodeEntry, EntryOk, FileOf, EntryAt, Build, Data, DataOffset, CheckedPath, NoEmptyComponent;
    assert RecordOk(rs[i]);
    BuiltParts(rs, crc, i);
    DataFollows(rs, i);
    EntryReads(Build(rs, crc), rs[i], Offset(rs, i), crc);
  }

  lemma EntryReads(p: seq<Byte>, r: Record, offset: U64, crc: Checksum)
    requires RecordOk(r) && |r.path| < PATH_FIELD && |r.contents| <= UINT64_MAX
    requires HEADER_SIZE <= offset && offset + |r.contents| <= |p| && p[offset..offset + |r.contents|] == r.contents
    ensures EntryOk(p, EncodeEntry(r, offset, crc), crc) <==> NoEmptyComponent(r.path)
    ensures FileOf(EncodeEntry(r, offset, crc)) == File(r.path, offset, |r.contents|, r.destination)
  {
    hide EncodeEntry, FieldOk, CheckedPath, PathIn, U32At, U64At, NoEmptyComponent;
    EntryFields(r, offset, crc);
    FieldRoundTrip(r.path);
  }

  lemma DataFollows(rs: seq<Record>, i: nat)
    requires i < |rs|
    ensures DataOffset(|rs|) <= Offset(rs, i) && HEADER_SIZE <= Offset(rs, i)
  {
  }

  lemma BuiltDistinct(rs: seq<Record>, crc: Checksum, k: nat, i: nat)
    requires Written(rs) && k < i < |rs|
    ensures HEADER_SIZE + (i + 1) * ENTRY_SIZE <= |Build(rs, crc)|
    ensures HEADER_SIZE + (k + 1) * ENTRY_SIZE <= |Build(rs, crc)|
    ensures !SameFile(EntryAt(Build(rs, crc), k), EntryAt(Build(rs, crc), i))
  {
    hide EntryOk, Fits, PathIn, U32At, Build, Offset, KeyLess;
    BuiltEntry(rs, crc, k);
    BuiltEntry(rs, crc, i);
    KeyOrder(rs[k], rs[i]);
    assert KeyLess(rs[k], rs[i]);
  }

  lemma BuiltPlaced(rs: seq<Record>, crc: Checksum, i: nat)
    requires Written(rs) && i < |rs|
    ensures
      var p := Build(rs, crc);
      && HEADER_SIZE + (i + 1) * ENTRY_SIZE <= |p|
      && (PlacedOk(p, i, Floor(p, i), crc) <==> NoEmptyComponent(rs[i].path))
  {
    hide EntryOk, Fits, EntryAt, Build, Offset, Ascending, RecordOk, SameFile;
    var p := Build(rs, crc);
    BuiltHeader(rs, crc);
    BuiltEntry(rs, crc, i);
    if i > 0 {
      BuiltEntry(rs, crc, i - 1);
      Disjoint(rs, i - 1, i);
    } else {
      DataFollows(rs, i);
    }
    forall k | 0 <= k < i
      ensures !SameFile(EntryAt(p, k), EntryAt(p, i))
    {
      BuiltDistinct(rs, crc, k, i);
    }
  }

  /**
   The kernel accepts a written package exactly when no path has an empty
   component, and then reads back the records: path, destination and contents.
   */
  lemma PackageRoundTrip(rs: seq<Record>, crc: Checksum)
    requires Written(rs)
    ensures
      var p := Build(rs, crc);
      && (Parses(p, crc) <==> forall i :: 0 <= i < |rs| ==> NoEmptyComponent(rs[i].path))
      && (forall i :: 0 <= i < |rs| ==> ReadsBack(p, i, rs[i]))
  {
    hide PlacedOk, Floor, NoEmptyComponent, Build, ReadsBack;
    var p := Build(rs, crc);
    BuiltHeader(rs, crc);
    forall i | 0 <= i < |rs|
      ensures HEADER_SIZE + (i + 1) * ENTRY_SIZE <= |p|
      ensures PlacedOk(p, i, Floor(p, i), crc) <==> NoEmptyComponent(rs[i].path)
      ensures ReadsBack(p, i, rs[i])
    {
      BuiltPlaced(rs, crc, i);
      BuiltReadsBack(rs, crc, i);
    }
  }

  /** Entry i of the package stands for the record. */
  ghost predicate ReadsBack(p: seq<Byte>, i: nat, r: Record) {
    && HEADER_SIZE + (i + 1) * ENTRY_SIZE <= |p|
    && var file := FileOf(EntryAt(p, i));
    && file.path == r.path && file.destination == r.destination
    && file.offset + file.size <= |p| && p[file.offset..file.offset + file.size] == r.contents
  }

  lemma BuiltReadsBack(rs: seq<Record>, crc: Checksum, i: nat)
    requires Written(rs) && i < |rs|
    ensures ReadsBack(Build(rs, crc), i, rs[i])
  {
    hide Build, EntryAt, Offset, Fits, Ascending, RecordOk;
    BuiltEntry(rs, crc, i);
    BuiltParts(rs, crc, i);
  }
}
