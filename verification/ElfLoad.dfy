/**
 Loading the kernel: the accepted files, the copy of the segments, the
 relocation of the image, and what every byte of the result is.
 */
module ElfLoad {
  import opened Bytes
  import opened Options
  import opened Elf
  import opened ElfBytes
  import opened ElfRelocate

  /** A little-endian ELF64 shared object for x86-64 with its program headers in the file. */
  predicate HeaderOk(file: seq<Byte>) {
    && |file| >= 64
    && file[..7] == [0x7F, 0x45, 0x4C, 0x46, 2, 1, 1]
    && Short(file, 16) == 3 && Short(file, 18) == 62 && Half(file, 20) == 1
    && Short(file, 52) == 64 && Short(file, 54) == 56
    && 1 <= Short(file, 56) <= 64
    && RangeInside(Word(file, 32), 56 * Short(file, 56), |file|)
  }

  function Table(file: seq<Byte>): seq<Phdr>
    requires HeaderOk(file)
  {
    Programs(file, Word(file, 32), Short(file, 56))
  }

  function Entry(file: seq<Byte>): U64
    requires HeaderOk(file)
  {
    Word(file, 24)
  }

  function HeadersEnd(file: seq<Byte>): nat
    requires HeaderOk(file)
  {
    Word(file, 32) + 56 * Short(file, 56)
  }

  /** A file with written headers is accepted, and the loader reads what was written. */
  lemma HeadedRead(file: seq<Byte>, h: FileHeader, programs: seq<Phdr>)
    requires Headed(file, h, programs)
    ensures HeaderOk(file) && Table(file) == programs && Entry(file) == h.entry
    ensures HeadersEnd(file) == h.phoff + 56 * |programs|
  {
    hide EncodeHeader, EncodePhdr, Word, Half, Short, Programs;
    HeaderRoundTrip(file, h);
    var last := |programs| - 1;
    assert Stands(file, h.phoff + 56 * last, EncodePhdr(programs[last]));
    TableRoundTrip(file, h.phoff, programs);
  }

  /** Every accepted file has written headers. */
  lemma AcceptedIsHeaded(file: seq<Byte>) returns (h: FileHeader)
    requires HeaderOk(file)
    ensures Headed(file, h, Table(file))
  {
    hide EncodeHeader, EncodePhdr, Word, Half, Short, Programs;
    h := FileHeader(
      file[7..16], Word(file, 24), Word(file, 32), Word(file, 40), Half(file, 48), Short(file, 56), file[58..64]);
    HeaderRoundTrip(file, h);
    TableRoundTrip(file, h.phoff, Table(file));
  }

  // ----- Where the segment copies go -----

  predicate CopyInside(p: Phdr, imageEnd: nat, fileSize: nat) {
    p.kind == PT_LOAD && p.filesz != 0 ==> p.vaddr + p.filesz <= imageEnd && p.offset + p.filesz <= fileSize
  }

  /** Every copy reads inside the file and writes inside the image. */
  ghost predicate CopiesInside(programs: seq<Phdr>, fileSize: nat) {
    forall i :: 0 <= i < |programs| ==> CopyInside(programs[i], ImageEnd(programs), fileSize)
  }

  /** The same for the load headers without memory, which validation skips but the copy does not. */
  ghost predicate HollowInside(programs: seq<Phdr>, fileSize: nat) {
    forall i :: 0 <= i < |programs| && programs[i].memsz == 0 ==>
      CopyInside(programs[i], ImageEnd(programs), fileSize)
  }

  /** Validation keeps the copies inside exactly when the headers it skips happen to fit. */
  lemma CopiesInsideIff(programs: seq<Phdr>, fileSize: nat)
    requires SegmentsOk(programs, fileSize)
    ensures CopiesInside(programs, fileSize) <==> HollowInside(programs, fileSize)
  {
    forall i | 0 <= i < |programs| && programs[i].Loads()
      ensures CopyInside(programs[i], ImageEnd(programs), fileSize)
    {
      SegmentsEndInside(programs, i);
    }
  }

  /** A table that validation accepts although one of its copies would leave the image. */
  lemma HollowHeaderAccepted()
    ensures
      var text := Phdr(PT_LOAD, 5, 0, 0, 0, 4096, 4096, 4096);
      var data := Phdr(PT_LOAD, 6, 4096, 4096, 4096, 64, 64, 4096);
      var dynamic := Phdr(PT_DYNAMIC, 6, 4096, 4096, 4096, 64, 64, 8);
      var hollow := Phdr(PT_LOAD, 6, 0, 8192, 8192, 16, 0, 4096);
      var programs := [text, data, dynamic, hollow];
      && Accepted(programs, 8192, 64, 288) && DynamicHeaderOk(programs, dynamic, 8192)
      && ImageEnd(programs) == 8192 && !CopiesInside(programs, 8192)
  {
    var text := Phdr(PT_LOAD, 5, 0, 0, 0, 4096, 4096, 4096);
    var data := Phdr(PT_LOAD, 6, 4096, 4096, 4096, 64, 64, 4096);
    var dynamic := Phdr(PT_DYNAMIC, 6, 4096, 4096, 4096, 64, 64, 8);
    var hollow := Phdr(PT_LOAD, 6, 0, 8192, 8192, 16, 0, 4096);
    var programs := [text, data, dynamic, hollow];
    assert programs[0] == text && programs[2] == dynamic && programs[3] == hollow;
    assert HoldsEntry(programs[0], 64) && HoldsHeaders(programs[0], 288);
    assert programs[..3] == [text, data, dynamic] && programs[..3][..2] == [text, data] && [text, data][..1] == [text];
    assert ImageEnd([text]) == 4096 by { assert [text][..0] == []; }
    assert ImageEnd([text, data]) == 8192;
    assert ImageEnd([text, data, dynamic]) == 8192;
    assert programs[1..][0] == data && FirstBacking(programs, 4096, 64, 8192) == 4096;
    assert RangeInSegment(programs[1], 4096, 64, true);
  }

  /** The file byte the last matching copy leaves at p, zero where none does. */
  function SegmentByte(programs: seq<Phdr>, file: seq<Byte>, p: int): Byte
    requires forall i :: 0 <= i < |programs| && programs[i].kind == PT_LOAD && programs[i].filesz != 0 ==>
      programs[i].offset + programs[i].filesz <= |file|
  {
    if programs == [] then 0
    else
      var last := programs[|programs| - 1];
      if last.Fills(p) then file[last.offset + (p - last.vaddr)] else SegmentByte(programs[..|programs| - 1], file, p)
  }

  method CopyBytes(image: array<Byte>, at: nat, file: seq<Byte>, from: nat, count: nat)
    requires at + count <= image.Length && from + count <= |file|
    modifies image
    ensures forall p :: 0 <= p < image.Length ==>
      image[p] == if at <= p < at + count then file[from + (p - at)] else old(image[p])
  {
    var k := 0;
    while k < count
      invariant 0 <= k <= count
      invariant forall p :: 0 <= p < image.Length ==>
        image[p] == if at <= p < at + k then file[from + (p - at)] else old(image[p])
    {
      image[at + k] := file[from + k];
      k := k + 1;
    }
  }

  method CopySegments(image: array<Byte>, programs: seq<Phdr>, file: seq<Byte>)
    requires CopiesInside(programs, |file|) && image.Length == ImageEnd(programs)
    requires forall p :: 0 <= p < image.Length ==> image[p] == 0
    modifies image
    ensures forall p :: 0 <= p < image.Length ==> image[p] == SegmentByte(programs, file, p)
  {
    hide ImageEnd;
    var index := 0;
    while index < |programs|
      invariant 0 <= index <= |programs|
      invariant forall p :: 0 <= p < image.Length ==> image[p] == SegmentByte(programs[..index], file, p)
    {
      var program := programs[index];
      assert CopyInside(program, image.Length, |file|);
      if program.kind == PT_LOAD && program.filesz != 0 {
        CopyBytes(image, program.vaddr, file, program.offset, program.filesz);
      }
      assert programs[..index + 1][..index] == programs[..index];
      index := index + 1;
    }
    assert programs[..index] == programs;
  }

  // ----- The dynamic section and its relocation table -----

  ghost predicate DynamicHeaderOk(programs: seq<Phdr>, d: Phdr, fileSize: nat) {
    && d.filesz != 0 && d.filesz == d.memsz && d.filesz % 16 == 0
    && d.align == 8 && d.offset % 8 == 0 && d.vaddr % 8 == 0
    && d.Readable() && d.Writable() && !d.Executable()
    && FirstBacking(programs, d.vaddr, d.filesz, fileSize) == d.offset
    && InSegment(programs, d.vaddr, d.filesz, true)
  }

  ghost function DynamicEntries(file: seq<Byte>, programs: seq<Phdr>, d: Phdr): seq<Dyn>
    requires DynamicHeaderOk(programs, d, |file|)
  {
    Entries(file, d.offset, d.filesz / 16)
  }

  /** The dynamic section names a relocation table that lies in the file. */
  ghost predicate Described(file: seq<Byte>, programs: seq<Phdr>, d: Phdr) {
    && DynamicHeaderOk(programs, d, |file|)
    && var entries := DynamicEntries(file, programs, d);
    && DynamicOk(entries)
    && var info := Collected(Live(entries));
    && TableOk(info)
    && var at := FirstBacking(programs, info.rela.value, info.size.value, |file|);
    && at != -1 && at % 8 == 0
  }

  ghost function RelocationTable(file: seq<Byte>, programs: seq<Phdr>, d: Phdr): seq<Rela>
    requires Described(file, programs, d)
  {
    var info := Collected(Live(DynamicEntries(file, programs, d)));
    Relocations(file, FirstBacking(programs, info.rela.value, info.size.value, |file|), info.size.value / 24)
  }

  method CheckDynamicHeader(programs: seq<Phdr>, d: Phdr, fileSize: nat) returns (ok: bool)
    ensures ok <==> DynamicHeaderOk(programs, d, fileSize)
  {
    if d.filesz == 0 || d.filesz != d.memsz || d.filesz % 16 != 0 || d.align != 8 || d.offset % 8 != 0
       || d.vaddr % 8 != 0 || !d.Readable() || !d.Writable() || d.Executable() {
      return false;
    }
    var found, offset := VirtualRangeToFile(programs, d.vaddr, d.filesz, fileSize);
    if !found || offset != d.offset {
      return false;
    }
    ok := VirtualRangeInLoad(programs, d.vaddr, d.filesz, true);
  }

  method FindRelocations(file: seq<Byte>, programs: seq<Phdr>, d: Phdr) returns (status: Status, relas: seq<Rela>)
    requires DynamicHeaderOk(programs, d, |file|)
    ensures status.Success? <==> Described(file, programs, d)
    ensures status.Success? ==> relas == RelocationTable(file, programs, d)
  {
    hide FirstBacking, Find, Live, DynamicOk, TableOk;
    var info;
    status, info := ReadDynamic(Entries(file, d.offset, d.filesz / 16));
    if !status.Success? {
      return status, [];
    }
    if !TableOk(info) {
      return LoadError, [];
    }
    assert TableFacts(info) by { TableShape(info); }
    var found, at := VirtualRangeToFile(programs, info.rela.value, info.size.value, |file|);
    if !found || at % 8 != 0 {
      return LoadError, [];
    }
    relas := Relocations(file, at, info.size.value / 24);
  }

  ghost predicate TableFacts(info: Info) {
    info.rela.Some? && info.size.Some? && info.size.value != 0 && info.size.value % 24 == 0
  }

  lemma TableShape(info: Info)
    requires TableOk(info)
    ensures TableFacts(info)
  {
  }

  // ----- The loader -----

  ghost predicate Loadable(file: seq<Byte>, base: U64) {
    && HeaderOk(file)
    && var programs := Table(file);
    && Accepted(programs, |file|, Entry(file), HeadersEnd(file))
    && base + ImageEnd(programs) <= UINT64_MAX
    && forall i :: 0 <= i < |programs| && programs[i].kind == PT_DYNAMIC ==>
         && Described(file, programs, programs[i])
         && RelocationsOk(programs, RelocationTable(file, programs, programs[i]), base)
  }

  /** Byte p of the image: the relocated word, or the copied byte, or zero. */
  ghost function ImageByte(file: seq<Byte>, programs: seq<Phdr>, d: Phdr, base: U64, p: int): Byte
    requires Described(file, programs, d) && RelocationsOk(programs, RelocationTable(file, programs, d), base)
    requires CopiesInside(programs, |file|)
  {
    RelocatedByte(RelocationTable(file, programs, d), base, SegmentByte(programs, file, p), p)
  }

  /** Accepted relocations are words of the image. */
  lemma RelocationsFit(programs: seq<Phdr>, fileSize: nat, relas: seq<Rela>, base: U64)
    requires SegmentsOk(programs, fileSize) && RelocationsOk(programs, relas, base)
    ensures Fit(relas, base, ImageEnd(programs))
  {
    forall k | 0 <= k < |relas|
      ensures base + relas[k].addend <= UINT64_MAX && relas[k].offset + 8 <= ImageEnd(programs)
    {
      assert RelaOk(programs, relas[k], base);
      var i :| 0 <= i < |programs| && RangeInSegment(programs[i], relas[k].offset, 8, true);
      SegmentsEndInside(programs, i);
    }
  }

  datatype Outcome =
    | Failed
    | Loaded(entry: U64, start: U64, end: U64)

  /** The relocated image in fresh pages at base, or nothing when the dynamic part is refused. */
  method BuildImage(file: seq<Byte>, programs: seq<Phdr>, d: Phdr, base: U64, imageEnd: nat)
    returns (ok: bool, image: seq<Byte>)
    requires SegmentsOk(programs, |file|) && HollowInside(programs, |file|)
    requires DynamicHeaderOk(programs, d, |file|) && imageEnd == ImageEnd(programs)
    ensures ok <==> Described(file, programs, d) && RelocationsOk(programs, RelocationTable(file, programs, d), base)
    ensures ok ==> CopiesInside(programs, |file|) && |image| == imageEnd
    ensures ok ==> forall p :: 0 <= p < imageEnd ==> image[p] == ImageByte(file, programs, d, base, p)
  {
    hide SegmentsOk, HollowInside, ImageEnd, DynamicHeaderOk, Described, RelocationsOk, FirstBacking;
    CopiesInsideIff(programs, |file|);
    var pages := new Byte[imageEnd](_ => 0);
    CopySegments(pages, programs, file);
    var status, relas := FindRelocations(file, programs, d);
    if !status.Success? {
      return false, [];
    }
    status := ValidateRelocations(programs, relas, base);
    if !status.Success? {
      return false, [];
    }
    RelocationsFit(programs, |file|, relas, base);
    ApplyRelocations(pages, relas, base);
    ok, image := true, pages[..];
  }

  /** The checks before any page is allocated. */
  ghost predicate Examined(file: seq<Byte>) {
    && HeaderOk(file)
    && var programs := Table(file);
    && Accepted(programs, |file|, Entry(file), HeadersEnd(file))
    && forall i :: 0 <= i < |programs| && programs[i].kind == PT_DYNAMIC ==>
         DynamicHeaderOk(programs, programs[i], |file|)
  }

  method Examine(file: seq<Byte>) returns (ok: bool, imageEnd: nat, dynamic: nat)
    requires |file| <= UINT64_MAX
    ensures ok <==> Examined(file)
    ensures ok ==> imageEnd == ImageEnd(Table(file))
    ensures ok ==> dynamic < |Table(file)| && Table(file)[dynamic].kind == PT_DYNAMIC
  {
    hide Accepted, DynamicHeaderOk, ImageEnd, Programs, HeaderOk;
    imageEnd, dynamic := 0, 0;
    if !HeaderOk(file) {
      return false, 0, 0;
    }
    var programs := Table(file);
    ok, imageEnd, dynamic := ValidatePrograms(programs, |file|, Entry(file), HeadersEnd(file));
    if !ok {
      return false, 0, 0;
    }
    AcceptedFacts(programs, |file|, Entry(file), HeadersEnd(file));
    ok := CheckDynamicHeader(programs, programs[dynamic], |file|);
  }

  /** Fills the allocated pages of an examined file. */
  method Populate(file: seq<Byte>, base: U64, imageEnd: nat, dynamic: nat) returns (outcome: Outcome, image: seq<Byte>)
    requires Examined(file) && HollowInside(Table(file), |file|) && imageEnd == ImageEnd(Table(file))
    requires dynamic < |Table(file)| && Table(file)[dynamic].kind == PT_DYNAMIC
    ensures outcome.Loaded? <==> Loadable(file, base)
    ensures outcome.Loaded? ==>
      outcome.start == base && outcome.end == base + imageEnd && outcome.entry == base + Entry(file)
    ensures outcome.Loaded? ==> ImageIs(file, base, image)
  {
    hide Accepted, HollowInside, DynamicHeaderOk, Described, RelocationsOk, ImageEnd, CopiesInside, Programs, HeaderOk;
    image := [];
    var programs := Table(file);
    AcceptedFacts(programs, |file|, Entry(file), HeadersEnd(file));
    if base > UINT64_MAX - imageEnd {
      return Failed, [];
    }
    var ok;
    ok, image := BuildImage(file, programs, programs[dynamic], base, imageEnd);
    if !ok {
      return Failed, [];
    }
    outcome := Loaded(base + Entry(file), base, base + imageEnd);
  }

  /** The firmware's page allocator: it may refuse, and what it gave out can be given back once. */
  class Pages {
    var held: set<(U64, nat)>
    ghost var requests: nat

    method Allocate(count: nat) returns (base: Option<U64>)
      modifies this
      ensures requests == old(requests) + 1
      ensures base.Some? ==> (base.value, count) !in old(held) && held == old(held) + {(base.value, count)}
      ensures base.None? ==> held == old(held)
    {
      requests := requests + 1;
      base := *;
      if base.Some? {
        if (base.value, count) in held {
          base := None;
        } else {
          held := held + {(base.value, count)};
        }
      }
    }

    method Free(base: U64, count: nat)
      requires (base, count) in held
      modifies `held
      ensures held == old(held) - {(base, count)}
    {
      held := held - {(base, count)};
    }
  }

  /**
   Loads the kernel into freshly allocated pages. Nothing is allocated for a
   file that fails the examination, and a load that fails later gives its pages
   back.
   */
  method LoadKernel(file: seq<Byte>, pages: Pages)
    returns (outcome: Outcome, image: seq<Byte>, granted: Option<U64>)
    requires |file| <= UINT64_MAX
    requires HeaderOk(file) ==> HollowInside(Table(file), |file|)
    modifies pages
    ensures outcome.Loaded? <==> granted.Some? && Loadable(file, granted.value)
    ensures pages.requests == old(pages.requests) + if Examined(file) then 1 else 0
    ensures outcome.Loaded? ==>
      && outcome.start == granted.value
      && outcome.end == granted.value + ImageEnd(Table(file))
      && outcome.entry == granted.value + Entry(file)
      && pages.held == old(pages.held) + {(granted.value, ImageEnd(Table(file)) / 4096)}
    ensures outcome.Failed? ==> pages.held == old(pages.held)
    ensures outcome.Loaded? ==> ImageIs(file, granted.value, image)
    ensures outcome.Loaded? ==> exists h, programs :: Headed(file, h, programs)
    ensures forall h, programs :: Headed(file, h, programs) && outcome.Loaded? ==>
      && outcome.entry == granted.value + h.entry
      && outcome.end == granted.value + ImageEnd(programs) == outcome.start + |image|
  {
    hide Loadable, ImageIs, ImageEnd, HollowInside, Programs, Accepted, DynamicHeaderOk;
    var ok, imageEnd, dynamic := Examine(file);
    if !ok {
      return Failed, [], None;
    }
    granted := pages.Allocate(imageEnd / 4096);
    if granted.None? {
      return Failed, [], None;
    }
    outcome, image := Populate(file, granted.value, imageEnd, dynamic);
    if outcome.Failed? {
      pages.Free(granted.value, imageEnd / 4096);
    } else {
      LoadedHeaders(file, granted.value, image);
    }
  }

  /** Whatever headers a loaded file was written from, the loader went by them. */
  lemma LoadedHeaders(file: seq<Byte>, base: U64, image: seq<Byte>)
    requires Loadable(file, base) && ImageIs(file, base, image)
    ensures exists h, programs :: Headed(file, h, programs)
    ensures forall h, programs :: Headed(file, h, programs) ==>
      h.entry == Entry(file) && ImageEnd(programs) == ImageEnd(Table(file)) == |image|
  {
    hide Headed, Programs, ImageEnd, Accepted, Described, RelocationsOk;
    var given := AcceptedIsHeaded(file);
    forall h, programs | Headed(file, h, programs)
      ensures h.entry == Entry(file) && programs == Table(file)
    {
      HeadedRead(file, h, programs);
    }
  }

  /** What an accepted table guarantees to the rest of the loader. */
  lemma AcceptedFacts(programs: seq<Phdr>, fileSize: nat, entry: U64, headersEnd: nat)
    requires Accepted(programs, fileSize, entry, headersEnd)
    ensures SegmentsOk(programs, fileSize)
    ensures entry < ImageEnd(programs)
    ensures forall i, j :: 0 <= i < j < |programs| ==> programs[i].kind != PT_DYNAMIC || programs[j].kind != PT_DYNAMIC
  {
    var i :| 0 <= i < |programs| && HoldsEntry(programs[i], entry);
    SegmentsEndInside(programs, i);
  }

  /** The image has exactly the specified bytes. */
  ghost predicate ImageIs(file: seq<Byte>, base: U64, image: seq<Byte>)
    requires Loadable(file, base)
  {
    var programs := Table(file);
    && CopiesInside(programs, |file|)
    && |image| == ImageEnd(programs)
    && forall i, p :: 0 <= i < |programs| && programs[i].kind == PT_DYNAMIC && 0 <= p < |image| ==>
         image[p] == ImageByte(file, programs, programs[i], base, p)
  }

  // ----- What the bytes of a loaded image are -----

  /** No load header has file bytes but no memory. */
  ghost predicate NoHollow(programs: seq<Phdr>) {
    forall i :: 0 <= i < |programs| && programs[i].kind == PT_LOAD && programs[i].filesz != 0 ==> programs[i].memsz != 0
  }

  /** Two accepted segments never map the same address. */
  lemma MappedOnce(programs: seq<Phdr>, fileSize: nat, i: nat, j: nat, p: int)
    requires SegmentsOk(programs, fileSize) && i < |programs| && j < |programs|
    requires programs[i].Maps(p) && programs[j].Maps(p)
    ensures i == j
  {
  }

  lemma {:induction false} SegmentByteIs(programs: seq<Phdr>, file: seq<Byte>, i: nat, p: int)
    requires SegmentsOk(programs, |file|) && NoHollow(programs)
    requires i < |programs| && programs[i].Fills(p)
    ensures SegmentByte(programs, file, p) == file[programs[i].offset + (p - programs[i].vaddr)]
  {
    var n := |programs| - 1;
    if i < n {
      if programs[n].Fills(p) {
        MappedOnce(programs, |file|, i, n, p);
      }
      SegmentByteIs(programs[..n], file, i, p);
    }
  }

  lemma {:induction false} SegmentByteZero(programs: seq<Phdr>, file: seq<Byte>, p: int)
    requires SegmentsOk(programs, |file|) && NoHollow(programs)
    requires forall i :: 0 <= i < |programs| ==> !programs[i].Fills(p)
    ensures SegmentByte(programs, file, p) == 0
  {
    if programs != [] {
      SegmentByteZero(programs[..|programs| - 1], file, p);
    }
  }

  ghost predicate Untouched(relas: seq<Rela>, p: int) {
    forall k :: 0 <= k < |relas| ==> !relas[k].Covers(p)
  }

  /** Every relocation slot holds the base plus its addend. */
  ghost predicate SlotsRelocated(relas: seq<Rela>, base: U64, image: seq<Byte>) {
    forall k :: 0 <= k < |relas| ==>
      relas[k].offset + 8 <= |image| && Word(image, relas[k].offset) == base + relas[k].addend
  }

  /** Every other byte is the file byte of the segment that fills it. */
  ghost predicate FileBytes(programs: seq<Phdr>, file: seq<Byte>, relas: seq<Rela>, image: seq<Byte>) {
    forall i, p :: 0 <= i < |programs| && 0 <= p < |image| && programs[i].Fills(p) && Untouched(relas, p) ==>
      && programs[i].offset + (p - programs[i].vaddr) < |file|
      && image[p] == file[programs[i].offset + (p - programs[i].vaddr)]
  }

  /** Bytes that no segment fills are zero. */
  ghost predicate ZeroElsewhere(programs: seq<Phdr>, relas: seq<Rela>, image: seq<Byte>) {
    forall p ::
      0 <= p < |image| && Untouched(relas, p) && (forall i :: 0 <= i < |programs| ==> !programs[i].Fills(p)) ==>
      image[p] == 0
  }

  /** Executable and read-only segments are left as they were copied. */
  ghost predicate ProtectedKept(programs: seq<Phdr>, relas: seq<Rela>) {
    forall i, p ::
      0 <= i < |programs| && programs[i].Maps(p) && (programs[i].Executable() || !programs[i].Writable()) ==>
      Untouched(relas, p)
  }

  /** The bytes of an image built from the accepted parts. */
  ghost predicate Built(programs: seq<Phdr>, file: seq<Byte>, relas: seq<Rela>, base: U64, image: seq<Byte>) {
    && SegmentsOk(programs, |file|) && CopiesInside(programs, |file|) && RelocationsOk(programs, relas, base)
    && |image| == ImageEnd(programs)
    && forall p :: 0 <= p < |image| ==> image[p] == RelocatedByte(relas, base, SegmentByte(programs, file, p), p)
  }

  lemma BuiltSlot(programs: seq<Phdr>, file: seq<Byte>, relas: seq<Rela>, base: U64, image: seq<Byte>, k: nat)
    requires Built(programs, file, relas, base, image) && k < |relas|
    ensures relas[k].offset + 8 <= |image| && base + relas[k].addend <= UINT64_MAX
    ensures Word(image, relas[k].offset) == base + relas[k].addend
  {
    hide SegmentsOk, RelocationsOk, ImageEnd, RelocatedByte, SegmentByte, Store, Load;
    RelocationsFit(programs, |file|, relas, base);
    var at, word := relas[k].offset, StoreU64(base + relas[k].addend);
    forall b | 0 <= b < 8
      ensures image[at + b] == word[b]
    {
      RelocatedWord(programs, relas, base, SegmentByte(programs, file, at + b), k, at + b);
    }
    assert image[at..at + 8] == word;
    U64RoundTrip(base + relas[k].addend);
  }

  lemma BuiltBytes(programs: seq<Phdr>, file: seq<Byte>, relas: seq<Rela>, base: U64, image: seq<Byte>)
    requires Built(programs, file, relas, base, image) && NoHollow(programs)
    ensures FileBytes(programs, file, relas, image)
    ensures ZeroElsewhere(programs, relas, image)
  {
    forall p | 0 <= p < |image| && Untouched(relas, p)
      ensures image[p] == SegmentByte(programs, file, p)
    {
      UntouchedByte(relas, base, SegmentByte(programs, file, p), p);
    }
    forall i, p | 0 <= i < |programs| && programs[i].Fills(p)
      ensures programs[i].offset + (p - programs[i].vaddr) < |file|
      ensures SegmentByte(programs, file, p) == file[programs[i].offset + (p - programs[i].vaddr)]
    {
      SegmentByteIs(programs, file, i, p);
    }
    forall p | forall i :: 0 <= i < |programs| ==> !programs[i].Fills(p)
      ensures SegmentByte(programs, file, p) == 0
    {
      SegmentByteZero(programs, file, p);
    }
  }

  lemma BuiltProtected(programs: seq<Phdr>, fileSize: nat, relas: seq<Rela>, base: U64)
    requires SegmentsOk(programs, fileSize) && RelocationsOk(programs, relas, base)
    ensures ProtectedKept(programs, relas)
  {
  }

  /** A loaded image is what its file and relocations say, and its entry can be executed. */
  lemma LoadedImage(file: seq<Byte>, base: U64, image: seq<Byte>, d: nat)
    requires Loadable(file, base) && ImageIs(file, base, image)
    requires d < |Table(file)| && Table(file)[d].kind == PT_DYNAMIC && NoHollow(Table(file))
    ensures
      var programs, relas := Table(file), RelocationTable(file, Table(file), Table(file)[d]);
      && SlotsRelocated(relas, base, image)
      && FileBytes(programs, file, relas, image)
      && ZeroElsewhere(programs, relas, image)
      && ProtectedKept(programs, relas)
      && exists i :: 0 <= i < |programs| && programs[i].Executable() && programs[i].Maps(Entry(file))
  {
    hide SegmentsOk, Described, RelocationsOk, CopiesInside, ImageEnd, RelocatedByte, SegmentByte, Programs,
         Accepted, HeaderOk;
    var programs, relas := Table(file), RelocationTable(file, Table(file), Table(file)[d]);
    AcceptedFacts(programs, |file|, Entry(file), HeadersEnd(file));
    assert Built(programs, file, relas, base, image);
    hide Built, RelocationTable, FileBytes, ZeroElsewhere, ProtectedKept;
    forall k | 0 <= k < |relas|
      ensures relas[k].offset + 8 <= |image| && Word(image, relas[k].offset) == base + relas[k].addend
    {
      BuiltSlot(programs, file, relas, base, image, k);
    }
    BuiltBytes(programs, file, relas, base, image);
    BuiltProtected(programs, |file|, relas, base);
    EntryExecutable(programs, |file|, Entry(file), HeadersEnd(file));
  }

  lemma EntryExecutable(programs: seq<Phdr>, fileSize: nat, entry: U64, headersEnd: nat)
    requires Accepted(programs, fileSize, entry, headersEnd)
    ensures exists i :: 0 <= i < |programs| && programs[i].Executable() && programs[i].Maps(entry)
  {
  }

  /** A loadable image is a whole, positive number of pages. */
  lemma ImageSpan(file: seq<Byte>, base: U64)
    requires Loadable(file, base)
    ensures ImageEnd(Table(file)) > 0 && ImageEnd(Table(file)) % 4096 == 0
  {
    hide Accepted, Described, RelocationsOk, Programs, HeaderOk;
    AcceptedFacts(Table(file), |file|, Entry(file), HeadersEnd(file));
    ImageEndAligned(Table(file));
  }
}
