/**
 The superblock sector: volume geometry, generation, feature flags and, while a
 move is under way, the record that announces it.
 */
module KuroSuper {
  import opened Bytes
  import opened Options
  import opened KuroDisk
  import opened KuroBitmap
  import opened KuroInode

  /** One parent of a move: its size and place before and after. */
  datatype Parent = Parent(
    id: U64, generation: U32, revision: U32,
    sizeBefore: U64, startBefore: U64, blocksBefore: U64,
    sizeAfter: U64, startAfter: U64, blocksAfter: U64)

  datatype Intent = Intent(childId: U64, childGeneration: U32, childKind: U32, source: Parent, destination: Parent)

  datatype Super = Super(geometry: Geometry, generation: U64, features: U64, move: Option<Intent>)

  const MAGIC: seq<Byte> := [75, 85, 82, 79, 70, 83, 49, 0]
  const MOVE_MAGIC: seq<Byte> := [75, 85, 77, 79, 86, 69, 49, 0]
  const FORMAT_VERSION: U32 := 1
  const MOVE_VERSION: U32 := 1
  const MOVE_SIZE: U32 := 160

  // ----- Encoding -----

  function Header(s: Super): (r: seq<Byte>)
    ensures |r| == 96
  {
    var g := s.geometry;
    MAGIC + StoreU32(FORMAT_VERSION) + StoreU32(512) + StoreU64(g.totalBlocks) + StoreU64(s.generation)
    + StoreU32(g.inodeCount) + StoreU32(128) + StoreU64(g.inodeTableStart) + StoreU64(g.inodeTableBlocks)
    + StoreU64(g.bitmapStart) + StoreU64(g.bitmapBlocks) + StoreU64(g.dataStart) + StoreU64(1) + StoreU64(s.features)
  }

  function ParentBytes(p: Parent): (r: seq<Byte>)
    ensures |r| == 64
  {
    StoreU64(p.id) + StoreU32(p.generation) + StoreU32(p.revision)
    + StoreU64(p.sizeBefore) + StoreU64(p.startBefore) + StoreU64(p.blocksBefore)
    + StoreU64(p.sizeAfter) + StoreU64(p.startAfter) + StoreU64(p.blocksAfter)
  }

  function MoveBytes(m: Intent): (r: seq<Byte>)
    ensures |r| == 160
  {
    MOVE_MAGIC + StoreU32(MOVE_VERSION) + StoreU32(MOVE_SIZE) + StoreU64(m.childId) + StoreU32(m.childGeneration)
    + StoreU32(m.childKind) + ParentBytes(m.source) + ParentBytes(m.destination)
  }

  function SuperBody(s: Super): (r: seq<Byte>)
    ensures |r| == 508
  {
    Header(s) + (if s.move.Some? then MoveBytes(s.move.value) else Zeros(160)) + Zeros(252)
  }

  function EncodeSuper(crc: seq<Byte> -> U32, s: Super): (r: Sector) {
    SuperBody(s) + StoreU32(crc(SuperBody(s)))
  }

  // ----- Decoding -----

  predicate ExtentFits(g: Geometry, size: U64, first: U64, count: U64) {
    if count == 0 then size == 0 && first == 0
    else
      && first + count <= UINT64_MAX && count * 512 <= UINT64_MAX
      && first >= g.dataStart && first + count <= g.totalBlocks && size <= count * 512
  }

  predicate ParentValid(g: Geometry, p: Parent) {
    && 0 < p.id <= g.inodeCount && p.generation != 0 && p.revision != 0 && p.revision != UINT32_MAX
    && p.sizeBefore % 128 == 0 && p.sizeAfter % 128 == 0
    && ExtentFits(g, p.sizeBefore, p.startBefore, p.blocksBefore)
    && ExtentFits(g, p.sizeAfter, p.startAfter, p.blocksAfter)
  }

  predicate IntentValid(g: Geometry, m: Intent) {
    && 0 < m.childId <= g.inodeCount && m.childGeneration != 0
    && (m.childKind == REGULAR || m.childKind == DIRECTORY)
    && ParentValid(g, m.source) && ParentValid(g, m.destination) && m.source.id != m.destination.id
    && m.source.sizeAfter + 128 == m.source.sizeBefore
    && m.destination.sizeBefore + 128 == m.destination.sizeAfter
  }

  function LoadParent(bytes: seq<Byte>): Parent
    requires |bytes| == 64
  {
    Parent(LoadU64(bytes[0..8]), LoadU32(bytes[8..12]), LoadU32(bytes[12..16]),
           LoadU64(bytes[16..24]), LoadU64(bytes[24..32]), LoadU64(bytes[32..40]),
           LoadU64(bytes[40..48]), LoadU64(bytes[48..56]), LoadU64(bytes[56..64]))
  }

  function LoadMove(record: seq<Byte>): Intent
    requires |record| == 160
  {
    Intent(LoadU64(record[16..24]), LoadU32(record[24..28]), LoadU32(record[28..32]),
           LoadParent(record[32..96]), LoadParent(record[96..160]))
  }

  function DecodeMove(record: seq<Byte>, g: Geometry, features: U64): (r: Result<Option<Intent>>)
    requires |record| == 160
  {
    if record == Zeros(160) then Success(None)
    else if record[..8] != MOVE_MAGIC then Failure(CorruptSuperblock)
    else if features % 2 == 0 || LoadU32(record[8..12]) != MOVE_VERSION || LoadU32(record[12..16]) != MOVE_SIZE then
      Failure(CorruptSuperblock)
    else if IntentValid(g, LoadMove(record)) then Success(Some(LoadMove(record)))
    else Failure(CorruptSuperblock)
  }

  function LoadGeometry(header: seq<Byte>): Geometry
    requires |header| == 96
  {
    Geometry(LoadU64(header[16..24]), LoadU32(header[32..36]), LoadU64(header[40..48]), LoadU64(header[48..56]),
             LoadU64(header[56..64]), LoadU64(header[64..72]), LoadU64(header[72..80]))
  }

  function DecodeSuper(crc: seq<Byte> -> U32, sectorCount: nat, sector: Sector): (r: Result<Super>)
    ensures r.Success? ==> r.value.geometry.Valid(sectorCount) && r.value.generation != 0
    ensures r.Success? && r.value.move.Some? ==> IntentValid(r.value.geometry, r.value.move.value)
  {
    if sector[..8] != MAGIC || LoadU32(sector[8..12]) != FORMAT_VERSION then Failure(InvalidSuperblock)
    else if LoadU32(sector[508..512]) != crc(sector[..508]) then Failure(CorruptSuperblock)
    else
      var g, generation := LoadGeometry(sector[..96]), LoadU64(sector[24..32]);
      var features := LoadU64(sector[88..96]);
      if LoadU32(sector[12..16]) != 512 || LoadU32(sector[36..40]) != 128 || LoadU64(sector[80..88]) != 1
         || generation == 0 || features > 3 || !g.Valid(sectorCount) then Failure(InvalidGeometry)
      else
        var move := DecodeMove(sector[96..256], g, features);
        if move.Failure? then Failure(move.error) else Success(Super(g, generation, features, move.value))
  }

  // ----- Round trip -----

  /** What may be written to a superblock of a device with that many sectors. */
  predicate Writable(s: Super, sectorCount: nat) {
    && s.geometry.Valid(sectorCount) && s.generation != 0 && s.features <= 3
    && (s.move.Some? ==> s.features % 2 == 1 && IntentValid(s.geometry, s.move.value))
  }

  lemma ParentRoundTrip(p: Parent)
    ensures LoadParent(ParentBytes(p)) == p
  {
    hide StoreU64, StoreU32, LoadU64, LoadU32;
    var b := ParentBytes(p);
    assert b[0..8] == StoreU64(p.id) && b[8..12] == StoreU32(p.generation) && b[12..16] == StoreU32(p.revision);
    assert b[16..24] == StoreU64(p.sizeBefore) && b[24..32] == StoreU64(p.startBefore);
    assert b[32..40] == StoreU64(p.blocksBefore) && b[40..48] == StoreU64(p.sizeAfter);
    assert b[48..56] == StoreU64(p.startAfter) && b[56..64] == StoreU64(p.blocksAfter);
    U64RoundTrip(p.id);
    U32RoundTrip(p.generation);
    U32RoundTrip(p.revision);
    U64RoundTrip(p.sizeBefore);
    U64RoundTrip(p.startBefore);
    U64RoundTrip(p.blocksBefore);
    U64RoundTrip(p.sizeAfter);
    U64RoundTrip(p.startAfter);
    U64RoundTrip(p.blocksAfter);
  }

  /** An announcement that may be written reads back as itself. */
  lemma MoveRoundTrip(g: Geometry, features: U64, m: Intent)
    requires IntentValid(g, m) && features % 2 == 1
    ensures DecodeMove(MoveBytes(m), g, features) == Success(Some(m))
  {
    hide StoreU64, StoreU32, LoadU64, LoadU32, IntentValid, ParentBytes, LoadParent;
    var b := MoveBytes(m);
    assert b[0] == 75;
    assert b[..8] == MOVE_MAGIC && b[8..12] == StoreU32(MOVE_VERSION) && b[12..16] == StoreU32(MOVE_SIZE);
    assert b[16..24] == StoreU64(m.childId) && b[24..28] == StoreU32(m.childGeneration);
    assert b[28..32] == StoreU32(m.childKind);
    assert b[32..96] == ParentBytes(m.source) && b[96..160] == ParentBytes(m.destination);
    U32RoundTrip(MOVE_VERSION);
    U32RoundTrip(MOVE_SIZE);
    U64RoundTrip(m.childId);
    U32RoundTrip(m.childGeneration);
    U32RoundTrip(m.childKind);
    ParentRoundTrip(m.source);
    ParentRoundTrip(m.destination);
  }

  lemma HeaderRoundTrip(s: Super)
    ensures
      var h := Header(s);
      && h[..8] == MAGIC && LoadU32(h[8..12]) == FORMAT_VERSION && LoadU32(h[12..16]) == 512
      && LoadU32(h[36..40]) == 128 && LoadU64(h[80..88]) == 1
      && LoadGeometry(h) == s.geometry && LoadU64(h[24..32]) == s.generation && LoadU64(h[88..96]) == s.features
  {
    hide StoreU64, StoreU32, LoadU64, LoadU32;
    var h, g := Header(s), s.geometry;
    assert h[..8] == MAGIC && h[8..12] == StoreU32(FORMAT_VERSION) && h[12..16] == StoreU32(512);
    assert h[16..24] == StoreU64(g.totalBlocks) && h[24..32] == StoreU64(s.generation);
    assert h[32..36] == StoreU32(g.inodeCount) && h[36..40] == StoreU32(128);
    assert h[40..48] == StoreU64(g.inodeTableStart) && h[48..56] == StoreU64(g.inodeTableBlocks);
    assert h[56..64] == StoreU64(g.bitmapStart) && h[64..72] == StoreU64(g.bitmapBlocks);
    assert h[72..80] == StoreU64(g.dataStart) && h[80..88] == StoreU64(1) && h[88..96] == StoreU64(s.features);
    U32RoundTrip(FORMAT_VERSION);
    U32RoundTrip(512);
    U32RoundTrip(128);
    U64RoundTrip(1);
    U64RoundTrip(g.totalBlocks);
    U64RoundTrip(s.generation);
    U32RoundTrip(g.inodeCount);
    U64RoundTrip(g.inodeTableStart);
    U64RoundTrip(g.inodeTableBlocks);
    U64RoundTrip(g.bitmapStart);
    U64RoundTrip(g.bitmapBlocks);
    U64RoundTrip(g.dataStart);
    U64RoundTrip(s.features);
  }

  /** A superblock reads back as what was written, the announcement included. */
  lemma SuperRoundTrip(crc: seq<Byte> -> U32, s: Super, sectorCount: nat)
    requires Writable(s, sectorCount)
    ensures DecodeSuper(crc, sectorCount, EncodeSuper(crc, s)) == Success(s)
  {
    hide StoreU64, StoreU32, LoadU64, LoadU32, IntentValid, DecodeMove, Header, MoveBytes, LoadGeometry, Zeros;
    var e, h := EncodeSuper(crc, s), Header(s);
    var record := if s.move.Some? then MoveBytes(s.move.value) else Zeros(160);
    assert e[..508] == SuperBody(s) && e[508..512] == StoreU32(crc(SuperBody(s)));
    assert e[..96] == h && e[96..256] == record;
    assert e[..8] == h[..8] && e[8..12] == h[8..12] && e[12..16] == h[12..16] && e[24..32] == h[24..32];
    assert e[36..40] == h[36..40] && e[80..88] == h[80..88] && e[88..96] == h[88..96];
    U32RoundTrip(crc(SuperBody(s)));
    HeaderRoundTrip(s);
    assert DecodeMove(record, s.geometry, s.features) == Success(s.move) by {
      if s.move.Some? {
        MoveRoundTrip(s.geometry, s.features, s.move.value);
      } else {
        NoMove(s.geometry, s.features);
      }
    }
  }

  lemma NoMove(g: Geometry, features: U64)
    ensures DecodeMove(Zeros(160), g, features) == Success(None)
  {
  }
}
