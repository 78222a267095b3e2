/** The installer package format and the builder that serializes records into it. */
module Package {
  import opened Bytes
  import opened Options
  import opened PackagePath

  const HEADER_SIZE: nat := 64
  const ENTRY_SIZE: nat := 160
  const MAX_FILES: nat := 128
  const MAX_PACKAGE_SIZE: nat := 16 * 1024 * 1024

  type Checksum = seq<Byte> -> U32

  datatype Record = Record(destination: U32, path: Path, contents: seq<Byte>)

  // ----- Order of the records -----

  predicate LexLess(a: Path, b: Path) {
    b != [] && (a == [] || a[0] < b[0] || (a[0] == b[0] && LexLess(a[1..], b[1..])))
  }

  /** Records are ordered by destination, then path. */
  predicate KeyLess(a: Record, b: Record) {
    a.destination < b.destination || (a.destination == b.destination && LexLess(a.path, b.path))
  }

  predicate SameKey(a: Record, b: Record) {
    a.destination == b.destination && a.path == b.path
  }

  lemma {:induction false} LexOrder(a: Path, b: Path)
    ensures a != b ==> LexLess(a, b) || LexLess(b, a)
    ensures !(LexLess(a, b) && LexLess(b, a)) && !LexLess(a, a)
  {
    if a != [] {
      LexOrder(a[1..], a[1..]);
    }
    if a != [] && b != [] {
      LexOrder(a[1..], b[1..]);
      assert a == [a[0]] + a[1..] && b == [b[0]] + b[1..];
    }
  }

  lemma {:induction false} LexTransitive(a: Path, b: Path, c: Path)
    requires LexLess(a, b) && LexLess(b, c)
    ensures LexLess(a, c)
  {
    if a != [] && a[0] == b[0] == c[0] {
      LexTransitive(a[1..], b[1..], c[1..]);
    }
  }

  lemma KeyOrder(a: Record, b: Record)
    ensures !SameKey(a, b) ==> KeyLess(a, b) || KeyLess(b, a)
    ensures !(KeyLess(a, b) && KeyLess(b, a)) && (SameKey(a, b) ==> !KeyLess(a, b))
  {
    LexOrder(a.path, b.path);
  }

  lemma KeyTransitive(a: Record, b: Record, c: Record)
    requires KeyLess(a, b) && KeyLess(b, c)
    ensures KeyLess(a, c)
  {
    if a.destination == b.destination == c.destination {
      LexTransitive(a.path, b.path, c.path);
    }
  }

  /** Strictly ascending by key, so without duplicate keys. */
  ghost predicate Ascending(rs: seq<Record>) {
    forall i, j :: 0 <= i < j < |rs| ==> KeyLess(rs[i], rs[j])
  }

  ghost predicate SameRecords(a: seq<Record>, b: seq<Record>) {
    forall r :: r in a <==> r in b
  }

  /** The records of the list, each once, in order. */
  ghost predicate Sorts(rs: seq<Record>, items: seq<Record>) {
    Ascending(rs) && |rs| == |items| && SameRecords(rs, items)
  }

  lemma SameFirst(a: seq<Record>, b: seq<Record>)
    requires Ascending(a) && Ascending(b) && SameRecords(a, b) && a != [] && b != []
    ensures a[0] == b[0]
  {
    hide KeyLess;
    assert a[0] in b && b[0] in a;
    var k :| 0 <= k < |b| && b[k] == a[0];
    var m :| 0 <= m < |a| && a[m] == b[0];
    KeyOrder(a[0], b[0]);
  }

  lemma SameRest(a: seq<Record>, b: seq<Record>)
    requires Ascending(a) && Ascending(b) && SameRecords(a, b) && a != [] && b != [] && a[0] == b[0]
    ensures Ascending(a[1..]) && Ascending(b[1..]) && SameRecords(a[1..], b[1..])
  {
    hide KeyLess;
    KeyOrder(a[0], a[0]);
    assert a == [a[0]] + a[1..] && b == [b[0]] + b[1..];
    assert a[0] !in a[1..] && b[0] !in b[1..];
    forall r
      ensures r in a[1..] <==> r in b[1..]
    {
      assert r in a <==> r == a[0] || r in a[1..];
      assert r in b <==> r == b[0] || r in b[1..];
    }
  }

  /** Only one ascending sequence has the given records. */
  lemma {:induction false} AscendingUnique(a: seq<Record>, b: seq<Record>)
    requires Ascending(a) && Ascending(b) && SameRecords(a, b)
    ensures a == b
  {
    assert a != [] ==> a[0] in b;
    assert b != [] ==> b[0] in a;
    if a != [] && b != [] {
      SameFirst(a, b);
      SameRest(a, b);
      AscendingUnique(a[1..], b[1..]);
      assert a == [a[0]] + a[1..] && b == [b[0]] + b[1..];
    }
  }

  // ----- The format -----

  function Align16(x: nat): (r: nat)
    ensures x <= r < x + 16 && r % 16 == 0
  {
    (x + 15) / 16 * 16
  }

  function EncodeEntry(r: Record, offset: U64, crc: Checksum): (e: seq<Byte>)
    requires |r.path| <= PATH_FIELD && |r.contents| <= UINT64_MAX
    ensures |e| == ENTRY_SIZE
  {
    r.path + Zeros(PATH_FIELD - |r.path|) + StoreU64(offset) + StoreU64(|r.contents|) + StoreU32(crc(r.contents))
    + StoreU32(r.destination) + StoreU64(0)
  }

  function Header(total: U64, count: U32, dataOffset: U64, manifest: U32): (h: seq<Byte>)
    ensures |h| == HEADER_SIZE
  {
    [75, 85, 82, 80, 75, 71, 49, 0] + StoreU32(1) + StoreU32(HEADER_SIZE) + StoreU64(total) + StoreU32(count)
    + StoreU32(ENTRY_SIZE) + StoreU64(HEADER_SIZE) + StoreU64(dataOffset) + StoreU32(manifest)
    + StoreU32(0) + StoreU64(0)
  }

  /** The contents of the files, each starting at a multiple of 16. */
  function Data(rs: seq<Record>): seq<Byte> {
    if rs == [] then []
    else
      var before := Data(rs[..|rs| - 1]);
      before + Zeros(Align16(|before|) - |before|) + rs[|rs| - 1].contents
  }

  function DataOffset(count: nat): nat {
    Align16(HEADER_SIZE + count * ENTRY_SIZE)
  }

  /** Where file i starts. */
  function Offset(rs: seq<Record>, i: nat): (r: nat)
    requires i <= |rs|
    ensures r % 16 == 0
  {
    DataOffset(|rs|) + Align16(|Data(rs[..i])|)
  }

  lemma {:induction false} DataGrows(rs: seq<Record>, i: nat)
    requires i < |rs|
    ensures Align16(|Data(rs[..i])|) + |rs[i].contents| == |Data(rs[..i + 1])| <= |Data(rs)|
    ensures Data(rs[..i + 1]) <= Data(rs)
    decreases |rs| - i
  {
    assert rs[..i + 1][..i] == rs[..i];
    if i + 1 < |rs| {
      DataGrows(rs, i + 1);
      assert rs[..i + 2][..i + 1] == rs[..i + 1];
    } else {
      assert rs[..i + 1] == rs;
    }
  }

  /** The files fit into the package when the first one starts at base. */
  ghost predicate Room(rs: seq<Record>, base: nat) {
    && base + |Data(rs)| <= MAX_PACKAGE_SIZE
    && forall i :: 0 <= i < |rs| ==> |rs[i].path| < PATH_FIELD
  }

  ghost predicate Fits(rs: seq<Record>) {
    Room(rs, DataOffset(|rs|))
  }

  /** The manifest: one entry per record. */
  ghost function Entries(rs: seq<Record>, base: nat, crc: Checksum): (m: seq<Byte>)
    requires Room(rs, base)
    ensures |m| == |rs| * ENTRY_SIZE
  {
    if rs == [] then []
    else
      var shorter := rs[..|rs| - 1];
      Entries(shorter, base, crc) + EncodeEntry(rs[|rs| - 1], base + Align16(|Data(shorter)|), crc)
  }

  ghost function Build(rs: seq<Record>, crc: Checksum): (p: seq<Byte>)
    requires Fits(rs) && |rs| <= MAX_FILES
    ensures |p| == DataOffset(|rs|) + |Data(rs)|
  {
    var base := DataOffset(|rs|);
    var manifest := Entries(rs, base, crc);
    Header(base + |Data(rs)|, |rs|, base, crc(manifest)) + manifest + Zeros(base - HEADER_SIZE - |manifest|) + Data(rs)
  }

  // ----- The builder -----

  /** The record in its place. */
  function Insert(rs: seq<Record>, r: Record): (s: seq<Record>)
    ensures |s| == |rs| + 1
  {
    if rs == [] || KeyLess(r, rs[0]) then [r] + rs else [rs[0]] + Insert(rs[1..], r)
  }

  ghost predicate HasKey(rs: seq<Record>, r: Record) {
    exists q :: q in rs && SameKey(q, r)
  }

  lemma {:induction false} InsertKeeps(rs: seq<Record>, r: Record)
    requires Ascending(rs) && !HasKey(rs, r)
    ensures Ascending(Insert(rs, r)) && forall q :: q in Insert(rs, r) <==> q == r || q in rs
  {
    hide KeyLess, SameKey;
    if rs == [] {
    } else if KeyLess(r, rs[0]) {
      forall j | 0 < j < |rs|
        ensures KeyLess(r, rs[j])
      {
        KeyTransitive(r, rs[0], rs[j]);
      }
    } else {
      var rest := rs[1..];
      assert rs == [rs[0]] + rest;
      assert !HasKey(rest, r);
      InsertKeeps(rest, r);
      KeyOrder(rs[0], r);
      assert rs[0] in rs;
      var s := Insert(rest, r);
      forall j | 0 <= j < |s|
        ensures KeyLess(rs[0], s[j])
      {
        assert s[j] in s;
        if s[j] != r {
          assert s[j] in rest;
        }
      }
    }
  }

  predicate RecordOk(r: Record) {
    (r.destination == 1 || r.destination == 2) && CheckedPath(r.path)
  }

  ghost predicate DistinctKeys(items: seq<Record>) {
    forall i, j :: 0 <= i < j < |items| ==> !SameKey(items[i], items[j])
  }

  /** The validated records in order; fails on a bad or repeated key. */
  method Collect(items: seq<Record>) returns (ok: bool, ordered: seq<Record>)
    ensures ok <==> (forall i :: 0 <= i < |items| ==> RecordOk(items[i])) && DistinctKeys(items)
    ensures ok ==> Sorts(ordered, items)
  {
    hide RecordOk, Insert;
    ordered := [];
    var index := 0;
    while index < |items|
      invariant 0 <= index <= |items|
      invariant forall i :: 0 <= i < index ==> RecordOk(items[i])
      invariant DistinctKeys(items[..index])
      invariant Sorts(ordered, items[..index])
    {
      var r := items[index];
      assert items[..index + 1] == items[..index] + [r];
      if !RecordOk(r) {
        return false, [];
      }
      var known := FindKey(ordered, r);
      if known {
        var q :| q in ordered && SameKey(q, r);
        assert q in items[..index];
        return false, [];
      }
      forall i | 0 <= i < index
        ensures !SameKey(items[i], r)
      {
        assert items[..index][i] in ordered;
      }
      InsertKeeps(ordered, r);
      ordered := Insert(ordered, r);
      index := index + 1;
    }
    assert items[..index] == items;
    ok := true;
  }

  method FindKey(rs: seq<Record>, r: Record) returns (found: bool)
    ensures found <==> HasKey(rs, r)
  {
    var i := 0;
    while i < |rs|
      invariant 0 <= i <= |rs|
      invariant forall k :: 0 <= k < i ==> !SameKey(rs[k], r)
    {
      if SameKey(rs[i], r) {
        return true;
      }
      i := i + 1;
    }
    found := false;
  }

  /** Lays the files out one after the other and writes their entries. */
  method LayOut(ordered: seq<Record>, crc: Checksum) returns (ok: bool, entries: seq<Byte>, data: seq<Byte>)
    requires forall i :: 0 <= i < |ordered| ==> |ordered[i].path| < PATH_FIELD
    requires DataOffset(|ordered|) <= MAX_PACKAGE_SIZE
    ensures ok <==> Fits(ordered)
    ensures ok ==> data == Data(ordered) && entries == Entries(ordered, DataOffset(|ordered|), crc)
  {
    hide EncodeEntry, Align16, DataOffset, Data, Entries, Room;
    var base := DataOffset(|ordered|);
    entries, data := [], [];
    EmptyLayout(base, crc);
    var index := 0;
    while index < |ordered|
      invariant 0 <= index <= |ordered|
      invariant Room(ordered[..index], base)
      invariant data == Data(ordered[..index]) && entries == Entries(ordered[..index], base, crc)
    {
      var r := ordered[index];
      LayoutStep(ordered, index, base, crc);
      data := data + Zeros(Align16(|data|) - |data|);
      var fileOffset := base + |data|;
      if fileOffset + |r.contents| > MAX_PACKAGE_SIZE {
        return false, [], [];
      }
      entries := entries + EncodeEntry(r, fileOffset, crc);
      data := data + r.contents;
      index := index + 1;
    }
    assert ordered[..index] == ordered;
    ok := true;
  }

  lemma EmptyLayout(base: nat, crc: Checksum)
    requires base <= MAX_PACKAGE_SIZE
    ensures Room([], base) && Data([]) == [] && Entries([], base, crc) == []
  {
  }

  /** What one more file adds to the layout, and that no later file makes up for one that does not fit. */
  lemma LayoutStep(rs: seq<Record>, index: nat, base: nat, crc: Checksum)
    requires index < |rs| && Room(rs[..index], base) && |rs[index].path| < PATH_FIELD
    ensures
      var before, r := Data(rs[..index]), rs[index];
      var at := Align16(|before|);
      && Data(rs[..index + 1]) == before + Zeros(at - |before|) + r.contents
      && (base + at + |r.contents| <= MAX_PACKAGE_SIZE ==>
            && Room(rs[..index + 1], base)
            && Entries(rs[..index + 1], base, crc) == Entries(rs[..index], base, crc) + EncodeEntry(r, base + at, crc))
      && (base + at + |r.contents| > MAX_PACKAGE_SIZE ==> !Room(rs, base))
  {
    hide Align16, EncodeEntry;
    var longer := rs[..index + 1];
    assert longer[..index] == rs[..index] && longer[index] == rs[index];
    DataGrows(rs, index);
  }

  ghost predicate Acceptable(items: seq<Record>) {
    && 0 < |items| <= MAX_FILES
    && (forall i :: 0 <= i < |items| ==> RecordOk(items[i])) && DistinctKeys(items)
    && forall rs :: Sorts(rs, items) ==> Fits(rs)
  }

  /** Serializes exactly the acceptable lists, into the one package their sorted records have. */
  method SerializePackage(items: seq<Record>, crc: Checksum) returns (package: Option<seq<Byte>>, ordered: seq<Record>)
    ensures package.Some? <==> Acceptable(items)
    ensures package.Some? ==> Sorts(ordered, items) && Fits(ordered) && package.value == Build(ordered, crc)
  {
    hide RecordOk, Data, Entries, Header;
    package, ordered := None, [];
    if |items| == 0 || |items| > MAX_FILES {
      return;
    }
    var ok;
    ok, ordered := Collect(items);
    if !ok {
      return None, [];
    }
    SortedPaths(ordered, items);
    var entries, data;
    ok, entries, data := LayOut(ordered, crc);
    forall rs | Sorts(rs, items)
      ensures rs == ordered
    {
      AscendingUnique(rs, ordered);
    }
    if !ok {
      return None, [];
    }
    var base := DataOffset(|ordered|);
    var header := Header(base + |data|, |ordered|, base, crc(entries));
    package := Some(header + entries + Zeros(base - HEADER_SIZE - |entries|) + data);
  }

  lemma SortedPaths(ordered: seq<Record>, items: seq<Record>)
    requires Sorts(ordered, items) && (forall i :: 0 <= i < |items| ==> RecordOk(items[i])) && |items| <= MAX_FILES
    ensures forall i :: 0 <= i < |ordered| ==> |ordered[i].path| < PATH_FIELD
    ensures DataOffset(|ordered|) <= MAX_PACKAGE_SIZE
  {
    forall i | 0 <= i < |ordered|
      ensures |ordered[i].path| < PATH_FIELD
    {
      assert ordered[i] in items;
    }
  }

  lemma {:induction false} TwoPlaces(a: seq<Record>, r: Record) returns (k: nat, l: nat)
    requires multiset(a)[r] >= 2
    ensures k < l < |a| && a[k] == a[l] == r
  {
    var n := |a| - 1;
    assert a == a[..n] + [a[n]];
    if a[n] == r {
      assert r in multiset(a[..n]);
      k := FirstPlace(a[..n], r);
      l := n;
    } else {
      k, l := TwoPlaces(a[..n], r);
    }
  }

  lemma FirstPlace(a: seq<Record>, r: Record) returns (k: nat)
    requires r in multiset(a)
    ensures k < |a| && a[k] == r
  {
    assert r in a;
    k :| k < |a| && a[k] == r;
  }

  /** Two places of one order are two places of the other. */
  lemma PlacesPermute(a: seq<Record>, b: seq<Record>, i: nat, j: nat) returns (k: nat, l: nat)
    requires multiset(a) == multiset(b) && i < j < |b|
    ensures k < |a| && l < |a| && k != l && a[k] == b[i] && a[l] == b[j]
  {
    assert b[i] in multiset(b) && b[j] in multiset(b);
    if b[i] == b[j] {
      assert b == b[..j] + [b[j]] + b[j + 1..] && b[i] in b[..j];
      k, l := TwoPlaces(a, b[i]);
    } else {
      k := FirstPlace(a, b[i]);
      l := FirstPlace(a, b[j]);
    }
  }

  lemma DistinctPermutes(a: seq<Record>, b: seq<Record>)
    requires multiset(a) == multiset(b) && DistinctKeys(a)
    ensures DistinctKeys(b)
  {
    hide SameKey;
    forall i, j | 0 <= i < j < |b|
      ensures !SameKey(b[i], b[j])
    {
      KeyIsSymmetric(b[i], b[j]);
      var k, l := PlacesPermute(a, b, i, j);
    }
  }

  lemma KeyIsSymmetric(a: Record, b: Record)
    ensures SameKey(a, b) <==> SameKey(b, a)
  {
  }

  lemma AcceptablePermutes(a: seq<Record>, b: seq<Record>)
    requires multiset(a) == multiset(b) && Acceptable(a)
    ensures Acceptable(b)
  {
    hide RecordOk, Fits, DistinctKeys;
    assert |a| == |multiset(a)| == |multiset(b)| == |b|;
    DistinctPermutes(a, b);
    forall r ensures r in a <==> r in b {
      assert r in multiset(a) <==> r in multiset(b);
    }
    forall i | 0 <= i < |b| ensures RecordOk(b[i]) {
      assert b[i] in a;
    }
    forall rs | Sorts(rs, b) ensures Fits(rs) {
      assert Sorts(rs, a);
    }
  }

  /** A list is accepted in every order or in none, and every order gives the same package. */
  lemma OrderIrrelevant(a: seq<Record>, b: seq<Record>, rs: seq<Record>, ss: seq<Record>, crc: Checksum)
    requires multiset(a) == multiset(b)
    ensures Acceptable(a) <==> Acceptable(b)
    ensures Acceptable(a) && Sorts(rs, a) && Sorts(ss, b) ==> rs == ss && Fits(rs) && Build(rs, crc) == Build(ss, crc)
  {
    hide Build;
    if Acceptable(a) {
      AcceptablePermutes(a, b);
    }
    if Acceptable(b) {
      AcceptablePermutes(b, a);
    }
    if Acceptable(a) && Sorts(rs, a) && Sorts(ss, b) {
      forall r ensures r in rs <==> r in ss {
        assert r in multiset(a) <==> r in multiset(b);
      }
      AscendingUnique(rs, ss);
    }
  }
}
