/**
 ELF64 program headers as the boot loader validates them: which segments are
 accepted and how a virtual range is found in a segment or in the file.
 */
module Elf {
  import opened Bytes

  const PT_LOAD: U32 := 1
  const PT_DYNAMIC: U32 := 2

  datatype Phdr = Phdr(
    kind: U32, flags: U32, offset: U64, vaddr: U64, paddr: U64, filesz: U64, memsz: U64, align: U64)
  {
    predicate Executable() { flags % 2 == 1 }
    predicate Writable() { flags / 2 % 2 == 1 }
    predicate Readable() { flags / 4 % 2 == 1 }

    /** The header maps memory; a load header without memory is skipped by validation. */
    predicate Loads() { kind == PT_LOAD && memsz != 0 }

    /** Address p is inside the mapped range. */
    predicate Maps(p: int) { kind == PT_LOAD && vaddr <= p < vaddr + memsz }

    /** Address p receives a byte of the file. */
    predicate Fills(p: int) { kind == PT_LOAD && vaddr <= p < vaddr + filesz }
  }

  function Word(file: seq<Byte>, at: nat): (r: U64)
    requires at + 8 <= |file|
  {
    LoadU64(file[at..at + 8])
  }

  function Half(file: seq<Byte>, at: nat): (r: U32)
    requires at + 4 <= |file|
  {
    LoadU32(file[at..at + 4])
  }

  function Short(file: seq<Byte>, at: nat): nat
    requires at + 2 <= |file|
  {
    Load(file[at..at + 2])
  }

  function PhdrAt(file: seq<Byte>, at: nat): Phdr
    requires at + 56 <= |file|
  {
    Phdr(Half(file, at), Half(file, at + 4), Word(file, at + 8), Word(file, at + 16), Word(file, at + 24),
         Word(file, at + 32), Word(file, at + 40), Word(file, at + 48))
  }

  function Programs(file: seq<Byte>, phoff: nat, phnum: nat): (r: seq<Phdr>)
    requires phoff + 56 * phnum <= |file|
    ensures |r| == phnum
  {
    seq(phnum, i requires 0 <= i < phnum => PhdrAt(file, phoff + 56 * i))
  }

  predicate RangeInside(offset: nat, length: nat, total: nat) {
    offset <= total && length <= total - offset
  }

  // ----- Segment lookup -----

  predicate RangeInSegment(p: Phdr, address: U64, length: U64, writableOnly: bool) {
    && p.kind == PT_LOAD && p.vaddr <= address && address + length <= p.vaddr + p.memsz
    && p.Readable() && (writableOnly ==> p.Writable() && !p.Executable())
  }

  /** Some load segment holds the range with the wanted permissions. */
  method VirtualRangeInLoad(programs: seq<Phdr>, address: U64, length: U64, writableOnly: bool) returns (found: bool)
    ensures found <==>
      length != 0 && exists i :: 0 <= i < |programs| && RangeInSegment(programs[i], address, length, writableOnly)
  {
    if length == 0 {
      return false;
    }
    var index := 0;
    while index < |programs|
      invariant 0 <= index <= |programs|
      invariant forall i :: 0 <= i < index ==> !RangeInSegment(programs[i], address, length, writableOnly)
    {
      var p := programs[index];
      if p.kind == PT_LOAD && address >= p.vaddr {
        var delta := address - p.vaddr;
        if delta <= p.memsz && length <= p.memsz - delta && p.Readable()
           && (writableOnly ==> p.Writable() && !p.Executable()) {
          return true;
        }
      }
      index := index + 1;
    }
    found := false;
  }

  /** The file range that backs the virtual range inside p. */
  predicate BackedBy(p: Phdr, address: U64, length: U64, fileSize: nat, offset: int) {
    && p.kind == PT_LOAD && p.vaddr <= address && address + length <= p.vaddr + p.filesz
    && offset == p.offset + (address - p.vaddr) && offset <= UINT64_MAX
    && offset + length <= fileSize
  }

  /** The file offset given by the first load header that backs the range, or -1. */
  function FirstBacking(programs: seq<Phdr>, address: U64, length: U64, fileSize: nat): (r: int)
    ensures r == -1 ==> forall i, o :: 0 <= i < |programs| ==> !BackedBy(programs[i], address, length, fileSize, o)
    ensures r != -1 ==> r >= 0 && exists i :: 0 <= i < |programs| && BackedBy(programs[i], address, length, fileSize, r)
  {
    if programs == [] then -1
    else
      var p := programs[0];
      if BackedBy(p, address, length, fileSize, p.offset + (address - p.vaddr)) then p.offset + (address - p.vaddr)
      else
        var r := FirstBacking(programs[1..], address, length, fileSize);
        assert r != -1 ==> forall i :: 0 <= i < |programs| - 1 ==> programs[1..][i] == programs[i + 1];
        r
  }

  lemma FirstBackingStep(programs: seq<Phdr>, index: nat, address: U64, length: U64, fileSize: nat)
    requires index < |programs|
    ensures
      var p := programs[index];
      var offset := p.offset + (address - p.vaddr);
      FirstBacking(programs[index..], address, length, fileSize) ==
      if BackedBy(p, address, length, fileSize, offset) then offset
      else FirstBacking(programs[index + 1..], address, length, fileSize)
  {
  }

  method VirtualRangeToFile(programs: seq<Phdr>, address: U64, length: U64, fileSize: nat)
    returns (found: bool, offset: nat)
    ensures found <==> length != 0 && FirstBacking(programs, address, length, fileSize) != -1
    ensures found ==> offset == FirstBacking(programs, address, length, fileSize)
  {
    assert programs[0..] == programs;
    hide FirstBacking;
    offset := 0;
    if length == 0 {
      return false, 0;
    }
    var index := 0;
    while index < |programs|
      invariant 0 <= index <= |programs|
      invariant FirstBacking(programs, address, length, fileSize)
             == FirstBacking(programs[index..], address, length, fileSize)
    {
      var p := programs[index];
      FirstBackingStep(programs, index, address, length, fileSize);
      if p.kind == PT_LOAD && address >= p.vaddr {
        var delta := address - p.vaddr;
        if delta <= p.filesz && length <= p.filesz - delta && p.offset <= UINT64_MAX - delta {
          if RangeInside(p.offset + delta, length, fileSize) {
            return true, p.offset + delta;
          }
        }
      }
      index := index + 1;
    }
    assert FirstBacking(programs[index..], address, length, fileSize) == -1 by {
      NoBacking(address, length, fileSize);
    }
    found := false;
  }

  lemma NoBacking(address: U64, length: U64, fileSize: nat)
    ensures FirstBacking([], address, length, fileSize) == -1
  {
  }

  // ----- Validation of the program headers -----

  function PageUp(x: nat): (r: nat)
    ensures r >= x && r % 4096 == 0 && r < x + 4096
  {
    (x + 4095) / 4096 * 4096
  }

  predicate SegmentOk(p: Phdr, fileSize: nat) {
    && p.vaddr == p.paddr && p.filesz <= p.memsz
    && RangeInside(p.offset, p.filesz, fileSize)
    && p.vaddr + p.memsz <= UINT64_MAX - 4095
    && p.align == 4096 && p.vaddr % 4096 == p.offset % 4096
    && p.Readable() && p.flags <= 7 && !(p.Writable() && p.Executable())
  }

  predicate Overlap(p: Phdr, q: Phdr) {
    p.vaddr < q.vaddr + q.memsz && q.vaddr < p.vaddr + p.memsz
  }

  /** The end of the last page any segment touches. */
  function ImageEnd(programs: seq<Phdr>): (r: nat) {
    if programs == [] then 0
    else
      var before, last := ImageEnd(programs[..|programs| - 1]), programs[|programs| - 1];
      if last.Loads() && PageUp(last.vaddr + last.memsz) > before then PageUp(last.vaddr + last.memsz) else before
  }

  lemma {:induction false} SegmentsEndInside(programs: seq<Phdr>, i: nat)
    requires i < |programs| && programs[i].Loads()
    ensures PageUp(programs[i].vaddr + programs[i].memsz) <= ImageEnd(programs)
  {
    if i < |programs| - 1 {
      SegmentsEndInside(programs[..|programs| - 1], i);
    }
  }

  lemma {:induction false} ImageEndAligned(programs: seq<Phdr>)
    ensures ImageEnd(programs) % 4096 == 0
  {
    if programs != [] {
      ImageEndAligned(programs[..|programs| - 1]);
    }
  }

  /** The entry point lies in an executable segment. */
  predicate HoldsEntry(p: Phdr, entry: U64) {
    p.Loads() && p.Executable() && p.vaddr <= entry < p.vaddr + p.memsz
  }

  /** The first segment brings the headers themselves into the image. */
  predicate HoldsHeaders(p: Phdr, headersEnd: nat) {
    p.Loads() && p.vaddr == 0 && p.offset == 0 && p.filesz >= headersEnd
  }

  ghost predicate SegmentsOk(programs: seq<Phdr>, fileSize: nat) {
    && (forall i :: 0 <= i < |programs| && programs[i].Loads() ==> SegmentOk(programs[i], fileSize))
    && (forall i, j :: 0 <= i < j < |programs| && programs[i].Loads() && programs[j].Loads() ==>
          !Overlap(programs[j], programs[i]))
    && (forall i, j :: 0 <= i < j < |programs| ==> !(programs[i].kind == PT_DYNAMIC && programs[j].kind == PT_DYNAMIC))
  }

  ghost predicate EntryIn(programs: seq<Phdr>, entry: U64) {
    exists i :: 0 <= i < |programs| && HoldsEntry(programs[i], entry)
  }

  ghost predicate HeadersIn(programs: seq<Phdr>, headersEnd: nat) {
    exists i :: 0 <= i < |programs| && HoldsHeaders(programs[i], headersEnd)
  }

  ghost predicate Accepted(programs: seq<Phdr>, fileSize: nat, entry: U64, headersEnd: nat) {
    && SegmentsOk(programs, fileSize)
    && EntryIn(programs, entry)
    && HeadersIn(programs, headersEnd)
    && exists i :: 0 <= i < |programs| && programs[i].kind == PT_DYNAMIC
  }

  /** What the next header adds to the conditions over the whole table. */
  ghost predicate StepOk(programs: seq<Phdr>, n: nat, fileSize: nat)
    requires n < |programs|
  {
    && (programs[n].Loads() ==>
          && SegmentOk(programs[n], fileSize)
          && forall j :: 0 <= j < n && programs[j].Loads() ==> !Overlap(programs[n], programs[j]))
    && (programs[n].kind == PT_DYNAMIC ==> forall j :: 0 <= j < n ==> programs[j].kind != PT_DYNAMIC)
  }

  lemma SegmentsOkStep(programs: seq<Phdr>, n: nat, fileSize: nat)
    requires n < |programs|
    ensures SegmentsOk(programs[..n + 1], fileSize) <==>
      SegmentsOk(programs[..n], fileSize) && StepOk(programs, n, fileSize)
    ensures SegmentsOk(programs, fileSize) ==> StepOk(programs, n, fileSize)
  {
  }

  lemma TableStep(programs: seq<Phdr>, n: nat, entry: U64, headersEnd: nat)
    requires n < |programs|
    ensures EntryIn(programs[..n + 1], entry) <==> EntryIn(programs[..n], entry) || HoldsEntry(programs[n], entry)
    ensures HeadersIn(programs[..n + 1], headersEnd) <==>
            HeadersIn(programs[..n], headersEnd) || HoldsHeaders(programs[n], headersEnd)
    ensures ImageEnd(programs[..n + 1]) ==
            if programs[n].Loads() && PageUp(programs[n].vaddr + programs[n].memsz) > ImageEnd(programs[..n])
            then PageUp(programs[n].vaddr + programs[n].memsz) else ImageEnd(programs[..n])
  {
    hide HoldsEntry, HoldsHeaders, PageUp;
    var shorter, longer := programs[..n], programs[..n + 1];
    assert longer[..n] == shorter && longer[n] == programs[n];
    assert forall i :: 0 <= i < n ==> longer[i] == shorter[i];
  }

  lemma SkippedHoldsNothing(p: Phdr, entry: U64, headersEnd: nat)
    requires !p.Loads()
    ensures !HoldsEntry(p, entry) && !HoldsHeaders(p, headersEnd)
  {
  }

  /** Whether the segment at index is well formed and clear of the earlier ones. */
  method CheckSegment(programs: seq<Phdr>, index: nat, fileSize: nat) returns (ok: bool)
    requires index < |programs| && programs[index].Loads()
    ensures ok <==> StepOk(programs, index, fileSize)
  {
    if !SegmentOk(programs[index], fileSize) {
      return false;
    }
    var previous := 0;
    while previous < index
      invariant 0 <= previous <= index
      invariant forall j :: 0 <= j < previous && programs[j].Loads() ==> !Overlap(programs[index], programs[j])
    {
      var q := programs[previous];
      if q.Loads() && Overlap(programs[index], q) {
        return false;
      }
      previous := previous + 1;
    }
    ok := true;
  }

  /** Accepts exactly the header tables described above, and computes the image size. */
  method ValidatePrograms(programs: seq<Phdr>, fileSize: nat, entry: U64, headersEnd: nat)
    returns (ok: bool, imageEnd: nat, dynamic: nat)
    ensures ok <==> Accepted(programs, fileSize, entry, headersEnd)
    ensures ok ==> imageEnd == ImageEnd(programs)
    ensures ok ==> dynamic < |programs| && programs[dynamic].kind == PT_DYNAMIC
  {
    hide HoldsEntry, HoldsHeaders, SegmentOk, Overlap, PageUp, SegmentsOk, EntryIn, HeadersIn;
    assert SegmentsOk(programs[..0], fileSize) && ImageEnd(programs[..0]) == 0
        && !EntryIn(programs[..0], entry) && !HeadersIn(programs[..0], headersEnd) by {
      EmptyTable(fileSize, entry, headersEnd);
    }
    imageEnd, dynamic := 0, |programs|;
    var executableEntry, headersLoaded := false, false;
    var index := 0;
    while index < |programs|
      invariant 0 <= index <= |programs|
      invariant SegmentsOk(programs[..index], fileSize)
      invariant imageEnd == ImageEnd(programs[..index])
      invariant executableEntry <==> EntryIn(programs[..index], entry)
      invariant headersLoaded <==> HeadersIn(programs[..index], headersEnd)
      invariant dynamic == |programs| || (dynamic < index && programs[dynamic].kind == PT_DYNAMIC)
      invariant dynamic == |programs| ==> forall i :: 0 <= i < index ==> programs[i].kind != PT_DYNAMIC
    {
      var p := programs[index];
      SegmentsOkStep(programs, index, fileSize);
      TableStep(programs, index, entry, headersEnd);
      if p.kind == PT_DYNAMIC {
        if dynamic != |programs| {
          return false, 0, 0;
        }
        dynamic := index;
        SkippedHoldsNothing(p, entry, headersEnd);
      } else if p.Loads() {
        var fits := CheckSegment(programs, index, fileSize);
        if !fits {
          return false, 0, 0;
        }
        var segmentEnd := PageUp(p.vaddr + p.memsz);
        if segmentEnd > imageEnd {
          imageEnd := segmentEnd;
        }
        executableEntry := executableEntry || HoldsEntry(p, entry);
        headersLoaded := headersLoaded || HoldsHeaders(p, headersEnd);
      } else {
        SkippedHoldsNothing(p, entry, headersEnd);
      }
      index := index + 1;
    }
    assert programs[..index] == programs;
    ok := executableEntry && headersLoaded && dynamic != |programs|;
  }

  lemma EmptyTable(fileSize: nat, entry: U64, headersEnd: nat)
    ensures SegmentsOk([], fileSize) && ImageEnd([]) == 0 && !EntryIn([], entry) && !HeadersIn([], headersEnd)
  {
  }
}
