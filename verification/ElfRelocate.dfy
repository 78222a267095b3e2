/**
 The dynamic section and the relative relocations of the kernel image: what is
 accepted, and what applying an accepted table does to the image bytes.
 */
module ElfRelocate {
  import opened Bytes
  import opened Options
  import opened Elf

  datatype Dyn = Dyn(tag: U64, value: U64)

  datatype Rela = Rela(offset: U64, info: U64, addend: U64)
  {
    /** Image byte p belongs to the relocated word. */
    predicate Covers(p: int) { offset <= p < offset + 8 }
  }

  datatype Status = Success | LoadError | Unsupported

  const DT_NULL: U64 := 0
  const DT_RELA: U64 := 7
  const DT_RELASZ: U64 := 8
  const DT_RELAENT: U64 := 9
  const DT_RELACOUNT: U64 := 0x6ffffff9
  const R_X86_64_RELATIVE: U64 := 8
  const MAX_RELOCATIONS: nat := 65536

  predicate UnsupportedTag(tag: U64) {
    tag in {1, 2, 3, 12, 13, 17, 18, 19, 20, 22, 23, 25, 26, 27, 28, 35, 36, 37}
  }

  function Entries(file: seq<Byte>, at: nat, count: nat): (r: seq<Dyn>)
    requires at + 16 * count <= |file|
    ensures |r| == count
  {
    seq(count, i requires 0 <= i < count => Dyn(Word(file, at + 16 * i), Word(file, at + 16 * i + 8)))
  }

  function Relocations(file: seq<Byte>, at: nat, count: nat): (r: seq<Rela>)
    requires at + 24 * count <= |file|
    ensures |r| == count
  {
    seq(count, i requires 0 <= i < count =>
      Rela(Word(file, at + 24 * i), Word(file, at + 24 * i + 8), Word(file, at + 24 * i + 16)))
  }

  // ----- Dynamic section -----

  datatype Info = Info(rela: Option<U64>, size: Option<U64>, entrySize: Option<U64>, count: Option<U64>)

  /** The value of the last entry with the tag. */
  function Find(entries: seq<Dyn>, tag: U64): (r: Option<U64>)
    ensures r.None? <==> forall i :: 0 <= i < |entries| ==> entries[i].tag != tag
    ensures r.Some? ==> exists i :: 0 <= i < |entries| && entries[i] == Dyn(tag, r.value)
  {
    if entries == [] then None
    else
      var last := entries[|entries| - 1];
      if last.tag == tag then Some(last.value) else Find(entries[..|entries| - 1], tag)
  }

  function Collected(entries: seq<Dyn>): Info {
    Info(Find(entries, DT_RELA), Find(entries, DT_RELASZ), Find(entries, DT_RELAENT), Find(entries, DT_RELACOUNT))
  }

  predicate Tracked(tag: U64) {
    tag == DT_RELA || tag == DT_RELASZ || tag == DT_RELAENT || tag == DT_RELACOUNT
  }

  /** No unsupported tag and no tracked tag twice. */
  ghost predicate Clean(entries: seq<Dyn>) {
    && (forall i :: 0 <= i < |entries| ==> !UnsupportedTag(entries[i].tag))
    && forall i, j :: 0 <= i < j < |entries| && Tracked(entries[j].tag) ==> entries[i].tag != entries[j].tag
  }

  /** The entries before the terminator. */
  function Live(entries: seq<Dyn>): (r: seq<Dyn>)
    ensures r <= entries
    ensures forall i :: 0 <= i < |r| ==> r[i].tag != DT_NULL
    ensures |r| < |entries| ==> entries[|r|].tag == DT_NULL
  {
    if entries == [] || entries[0].tag == DT_NULL then []
    else
      assert Live(entries[1..]) <= entries[1..];
      [entries[0]] + Live(entries[1..])
  }

  /** Terminated, padded with nothing but terminators, and clean before that. */
  ghost predicate DynamicOk(entries: seq<Dyn>) {
    var live := Live(entries);
    && |live| < |entries|
    && (forall i :: |live| <= i < |entries| ==> entries[i].tag == DT_NULL)
    && Clean(live)
  }

  lemma LiveIs(entries: seq<Dyn>, n: nat)
    requires n <= |entries|
    requires forall i :: 0 <= i < n ==> entries[i].tag != DT_NULL
    requires n < |entries| ==> entries[n].tag == DT_NULL
    ensures Live(entries) == entries[..n]
  {
  }

  lemma CleanStep(entries: seq<Dyn>, n: nat)
    requires n < |entries|
    ensures Clean(entries[..n + 1]) <==>
            && Clean(entries[..n])
            && !UnsupportedTag(entries[n].tag)
            && (Tracked(entries[n].tag) ==> Find(entries[..n], entries[n].tag).None?)
  {
  }

  lemma FindStep(entries: seq<Dyn>, n: nat, tag: U64)
    requires n < |entries|
    ensures Find(entries[..n + 1], tag) ==
            if entries[n].tag == tag then Some(entries[n].value) else Find(entries[..n], tag)
  {
    var shorter, longer := entries[..n], entries[..n + 1];
    assert longer[..n] == shorter && longer[n] == entries[n];
  }

  /** The tracked values, if every entry up to the end is acceptable. */
  method ReadDynamic(entries: seq<Dyn>) returns (status: Status, info: Info)
    ensures status.Success? <==> DynamicOk(entries)
    ensures status.Success? ==> info == Collected(Live(entries))
    ensures status.Unsupported? ==> exists i :: 0 <= i < |entries| && UnsupportedTag(entries[i].tag)
  {
    hide UnsupportedTag, Clean, Find;
    info := Info(None, None, None, None);
    var foundNull := false;
    var index := 0;
    ghost var n := 0;
    assert Clean(entries[..0]) && Collected(entries[..0]) == info by { NothingCollected(); }
    while index < |entries|
      invariant 0 <= n <= index <= |entries|
      invariant forall i :: 0 <= i < n ==> entries[i].tag != DT_NULL
      invariant foundNull ==> n < index && forall i :: n <= i < index ==> entries[i].tag == DT_NULL
      invariant !foundNull ==> n == index
      invariant Clean(entries[..n]) && info == Collected(entries[..n])
    {
      var entry := entries[index];
      if foundNull {
        if entry.tag != DT_NULL {
          LiveIs(entries, n);
          return LoadError, info;
        }
      } else if entry.tag == DT_NULL {
        foundNull := true;
      } else {
        RejectedHere(entries, index);
        FindStep(entries, index, DT_RELA);
        FindStep(entries, index, DT_RELASZ);
        FindStep(entries, index, DT_RELAENT);
        FindStep(entries, index, DT_RELACOUNT);
        CleanStep(entries, index);
        if UnsupportedTag(entry.tag) {
          return Unsupported, info;
        }
        var ok := true;
        if entry.tag == DT_RELA {
          ok := info.rela.None?;
          info := info.(rela := Some(entry.value));
        } else if entry.tag == DT_RELASZ {
          ok := info.size.None?;
          info := info.(size := Some(entry.value));
        } else if entry.tag == DT_RELAENT {
          ok := info.entrySize.None?;
          info := info.(entrySize := Some(entry.value));
        } else if entry.tag == DT_RELACOUNT {
          ok := info.count.None?;
          info := info.(count := Some(entry.value));
        }
        if !ok {
          return LoadError, info;
        }
        n := n + 1;
      }
      index := index + 1;
    }
    LiveIs(entries, n);
    status := if foundNull then Success else LoadError;
  }

  lemma NothingCollected()
    ensures Clean([]) && Collected([]) == Info(None, None, None, None)
  {
  }

  /** An acceptable section is clean up to and including any entry before the terminator. */
  lemma RejectedHere(entries: seq<Dyn>, n: nat)
    requires n < |entries| && forall i :: 0 <= i <= n ==> entries[i].tag != DT_NULL
    ensures DynamicOk(entries) ==> Clean(entries[..n + 1])
  {
  }

  /** The tracked values describe a relocation table of a supported shape. */
  predicate TableOk(info: Info) {
    && info.rela.Some? && info.size.Some? && info.entrySize.Some?
    && info.size.value != 0 && info.entrySize.value == 24 && info.size.value % 24 == 0
    && info.size.value / 24 <= MAX_RELOCATIONS
    && (info.count.Some? ==> info.count.value == info.size.value / 24)
  }

  // ----- Relocation table -----

  ghost predicate InSegment(programs: seq<Phdr>, address: U64, length: U64, writableOnly: bool) {
    exists i :: 0 <= i < |programs| && RangeInSegment(programs[i], address, length, writableOnly)
  }

  /** A relative relocation of one aligned word in writable, non-executable memory. */
  ghost predicate RelaOk(programs: seq<Phdr>, r: Rela, base: U64) {
    && r.info == R_X86_64_RELATIVE && r.addend < 0x8000_0000_0000_0000 && r.offset % 8 == 0
    && InSegment(programs, r.offset, 8, true) && InSegment(programs, r.addend, 1, false)
    && r.offset <= UINT64_MAX - 8 && base <= UINT64_MAX - r.addend
  }

  ghost predicate RelocationsOk(programs: seq<Phdr>, relas: seq<Rela>, base: U64) {
    && (forall k :: 0 <= k < |relas| ==> RelaOk(programs, relas[k], base))
    && forall k :: 1 <= k < |relas| ==> relas[k - 1].offset + 8 <= relas[k].offset
  }

  method CheckRela(programs: seq<Phdr>, r: Rela, base: U64, floor: nat) returns (status: Status)
    ensures status.Success? <==> RelaOk(programs, r, base) && floor <= r.offset
  {
    var target := VirtualRangeInLoad(programs, r.offset, 8, true);
    if r.info != R_X86_64_RELATIVE || r.addend >= 0x8000_0000_0000_0000 || r.offset % 8 != 0
       || r.offset < floor || !target {
      return Unsupported;
    }
    var value := VirtualRangeInLoad(programs, r.addend, 1, false);
    if !value || r.offset > UINT64_MAX - 8 || base > UINT64_MAX - r.addend {
      return LoadError;
    }
    status := Success;
  }

  method ValidateRelocations(programs: seq<Phdr>, relas: seq<Rela>, base: U64) returns (status: Status)
    ensures status.Success? <==> RelocationsOk(programs, relas, base)
  {
    hide RelaOk;
    var previousEnd := 0;
    var index := 0;
    while index < |relas|
      invariant 0 <= index <= |relas|
      invariant previousEnd == if index > 0 then relas[index - 1].offset + 8 else 0
      invariant forall k :: 0 <= k < index ==> RelaOk(programs, relas[k], base)
      invariant forall k :: 1 <= k < index ==> relas[k - 1].offset + 8 <= relas[k].offset
    {
      status := CheckRela(programs, relas[index], base, previousEnd);
      if !status.Success? {
        return;
      }
      previousEnd := relas[index].offset + 8;
      index := index + 1;
    }
    status := Success;
  }

  /** Accepted relocations never share an image byte. */
  lemma {:induction false} RelocationsDisjoint(programs: seq<Phdr>, relas: seq<Rela>, base: U64, k: nat, l: nat)
    requires RelocationsOk(programs, relas, base) && k < l < |relas|
    ensures relas[k].offset + 8 <= relas[l].offset
    decreases l
  {
    if k < l - 1 {
      RelocationsDisjoint(programs, relas, base, k, l - 1);
    }
  }

  // ----- Application -----

  /** Byte p after the relocations were written over the byte under. */
  function RelocatedByte(relas: seq<Rela>, base: U64, under: Byte, p: int): Byte
    requires forall k :: 0 <= k < |relas| ==> base + relas[k].addend <= UINT64_MAX
  {
    if relas == [] then under
    else
      var last := relas[|relas| - 1];
      if last.Covers(p) then StoreU64(base + last.addend)[p - last.offset]
      else RelocatedByte(relas[..|relas| - 1], base, under, p)
  }

  lemma {:induction false} UntouchedByte(relas: seq<Rela>, base: U64, under: Byte, p: int)
    requires forall k :: 0 <= k < |relas| ==> base + relas[k].addend <= UINT64_MAX
    requires forall k :: 0 <= k < |relas| ==> !relas[k].Covers(p)
    ensures RelocatedByte(relas, base, under, p) == under
  {
    if relas != [] {
      UntouchedByte(relas[..|relas| - 1], base, under, p);
    }
  }

  lemma {:induction false} RelocatedWord(programs: seq<Phdr>, relas: seq<Rela>, base: U64, under: Byte, k: nat, p: int)
    requires RelocationsOk(programs, relas, base) && k < |relas| && relas[k].Covers(p)
    ensures RelocatedByte(relas, base, under, p) == StoreU64(base + relas[k].addend)[p - relas[k].offset]
  {
    if k < |relas| - 1 {
      RelocationsDisjoint(programs, relas, base, k, |relas| - 1);
      RelocatedWord(programs, relas[..|relas| - 1], base, under, k, p);
    }
  }

  ghost predicate Fit(relas: seq<Rela>, base: U64, size: nat) {
    forall k :: 0 <= k < |relas| ==> base + relas[k].addend <= UINT64_MAX && relas[k].offset + 8 <= size
  }

  method StoreWord(image: array<Byte>, at: nat, value: U64)
    requires at + 8 <= image.Length
    modifies image
    ensures forall p :: 0 <= p < image.Length ==>
      image[p] == if at <= p < at + 8 then StoreU64(value)[p - at] else old(image[p])
  {
    var bytes := StoreU64(value);
    forall k | at <= k < at + 8 {
      image[k] := bytes[k - at];
    }
  }

  method ApplyRelocations(image: array<Byte>, relas: seq<Rela>, base: U64)
    requires Fit(relas, base, image.Length)
    modifies image
    ensures forall p :: 0 <= p < image.Length ==> image[p] == RelocatedByte(relas, base, old(image[p]), p)
  {
    var index := 0;
    while index < |relas|
      invariant 0 <= index <= |relas|
      invariant forall p :: 0 <= p < image.Length ==>
        image[p] == RelocatedByte(relas[..index], base, old(image[p]), p)
    {
      StoreWord(image, relas[index].offset, base + relas[index].addend);
      assert relas[..index + 1][..index] == relas[..index];
      index := index + 1;
    }
    assert relas[..index] == relas;
  }
}
