/**
 How the parts of a kernel file stand in its bytes: each record of the ELF64
 format is written out as bytes, and reading it is shown to be the inverse.
 */
module ElfBytes {
  import opened Bytes
  import opened Elf
  import opened ElfRelocate

  /** The bytes stand in the file from the offset on. */
  predicate Stands(file: seq<Byte>, at: nat, bytes: seq<Byte>) {
    at + |bytes| <= |file| && file[at..at + |bytes|] == bytes
  }

  lemma StandsBoth(file: seq<Byte>, at: nat, a: seq<Byte>, b: seq<Byte>)
    ensures Stands(file, at, a + b) <==> Stands(file, at, a) && Stands(file, at + |a|, b)
  {
    if at + |a| + |b| <= |file| {
      var m, e := at + |a|, at + |a| + |b|;
      var both := file[at..e];
      assert both[..|a|] == file[at..m] && both[|a|..] == file[m..e];
      assert (a + b)[..|a|] == a && (a + b)[|a|..] == b;
      assert both == both[..|a|] + both[|a|..];
    }
  }

  lemma {:induction false} StoreLoad(bytes: seq<Byte>)
    ensures Store(|bytes|, Load(bytes)) == bytes
  {
    if bytes != [] {
      StoreLoad(bytes[1..]);
      assert bytes == [bytes[0]] + bytes[1..];
    }
  }

  /** A number stands in the file exactly where it is read. */
  lemma StandsNumber(file: seq<Byte>, at: nat, n: nat, value: nat)
    requires value < Pow256(n)
    ensures Stands(file, at, Store(n, value)) <==> at + n <= |file| && Load(file[at..at + n]) == value
  {
    LoadStore(n, value);
    if at + n <= |file| {
      StoreLoad(file[at..at + n]);
    }
  }

  lemma StandsHalf(file: seq<Byte>, at: nat, value: U32)
    ensures Stands(file, at, StoreU32(value)) <==> at + 4 <= |file| && Half(file, at) == value
  {
    assert Pow256(2) == 0x1_0000;
    assert Pow256(4) == 0x1_0000_0000;
    StandsNumber(file, at, 4, value);
  }

  lemma StandsWord(file: seq<Byte>, at: nat, value: U64)
    ensures Stands(file, at, StoreU64(value)) <==> at + 8 <= |file| && Word(file, at) == value
  {
    assert Pow256(2) == 0x1_0000;
    assert Pow256(4) == 0x1_0000_0000;
    assert Pow256(6) == 0x1_0000_0000_0000;
    assert Pow256(8) == 0x1_0000_0000_0000_0000;
    StandsNumber(file, at, 8, value);
  }

  // ----- Words one after the other -----

  function Words(values: seq<U64>): (r: seq<Byte>)
    ensures |r| == 8 * |values|
  {
    if values == [] then [] else StoreU64(values[0]) + Words(values[1..])
  }

  lemma {:induction false} StandsWords(file: seq<Byte>, at: nat, values: seq<U64>)
    requires at <= |file|
    ensures Stands(file, at, Words(values)) <==>
      at + 8 * |values| <= |file| && forall i :: 0 <= i < |values| ==> Word(file, at + 8 * i) == values[i]
    decreases |values|
  {
    hide Stands, Word, StoreU64;
    if values == [] {
      assert Stands(file, at, []) by { EmptyStands(file, at); }
    } else {
      var rest := values[1..];
      StandsBoth(file, at, StoreU64(values[0]), Words(rest));
      StandsWord(file, at, values[0]);
      if at + 8 <= |file| {
        StandsWords(file, at + 8, rest);
        if at + 8 * |values| <= |file| {
          assert forall i :: 0 <= i < |rest| ==> Word(file, at + 8 + 8 * i) == Word(file, at + 8 * (i + 1));
          assert forall i :: 0 < i < |values| ==> values[i] == rest[i - 1];
        }
      }
    }
  }

  lemma EmptyStands(file: seq<Byte>, at: nat)
    requires at <= |file|
    ensures Stands(file, at, [])
  {
  }

  // ----- Program headers -----

  function EncodePhdr(p: Phdr): (r: seq<Byte>)
    ensures |r| == 56
  {
    StoreU32(p.kind) + (StoreU32(p.flags) + Words([p.offset, p.vaddr, p.paddr, p.filesz, p.memsz, p.align]))
  }

  /** A program header is read exactly where its bytes stand. */
  lemma PhdrRoundTrip(file: seq<Byte>, at: nat, p: Phdr)
    ensures Stands(file, at, EncodePhdr(p)) <==> at + 56 <= |file| && PhdrAt(file, at) == p
  {
    hide Stands, Word, Half, StoreU32, Words;
    var words := [p.offset, p.vaddr, p.paddr, p.filesz, p.memsz, p.align];
    StandsBoth(file, at, StoreU32(p.kind), StoreU32(p.flags) + Words(words));
    StandsBoth(file, at + 4, StoreU32(p.flags), Words(words));
    StandsHalf(file, at, p.kind);
    StandsHalf(file, at + 4, p.flags);
    if at + 8 <= |file| {
      StandsWords(file, at + 8, words);
      if at + 56 <= |file| {
        SixWords(file, at + 8, words);
      }
    }
  }

  lemma SixWords(file: seq<Byte>, at: nat, values: seq<U64>)
    requires |values| == 6 && at + 48 <= |file|
    ensures (forall i :: 0 <= i < 6 ==> Word(file, at + 8 * i) == values[i]) <==>
      && Word(file, at) == values[0] && Word(file, at + 8) == values[1] && Word(file, at + 16) == values[2]
      && Word(file, at + 24) == values[3] && Word(file, at + 32) == values[4] && Word(file, at + 40) == values[5]
  {
    hide Word;
    if forall i :: 0 <= i < 6 ==> Word(file, at + 8 * i) == values[i] {
      assert Word(file, at + 8 * 0) == values[0] && Word(file, at + 8 * 1) == values[1];
      assert Word(file, at + 8 * 2) == values[2] && Word(file, at + 8 * 3) == values[3];
      assert Word(file, at + 8 * 4) == values[4] && Word(file, at + 8 * 5) == values[5];
    }
  }

  /** The table of program headers stands in the file. */
  ghost predicate StandsTable(file: seq<Byte>, phoff: nat, programs: seq<Phdr>) {
    forall i :: 0 <= i < |programs| ==> Stands(file, phoff + 56 * i, EncodePhdr(programs[i]))
  }

  lemma TableRoundTrip(file: seq<Byte>, phoff: nat, programs: seq<Phdr>)
    requires phoff + 56 * |programs| <= |file|
    ensures StandsTable(file, phoff, programs) <==> Programs(file, phoff, |programs|) == programs
  {
    hide Stands, EncodePhdr, PhdrAt;
    forall i | 0 <= i < |programs|
      ensures Stands(file, phoff + 56 * i, EncodePhdr(programs[i])) <==> PhdrAt(file, phoff + 56 * i) == programs[i]
    {
      PhdrRoundTrip(file, phoff + 56 * i, programs[i]);
    }
  }

  // ----- Dynamic entries and relocations -----

  function EncodeDyn(d: Dyn): seq<Byte> {
    Words([d.tag, d.value])
  }

  function EncodeRela(r: Rela): seq<Byte> {
    Words([r.offset, r.info, r.addend])
  }

  ghost predicate StandsDynamic(file: seq<Byte>, at: nat, entries: seq<Dyn>) {
    forall i :: 0 <= i < |entries| ==> Stands(file, at + 16 * i, EncodeDyn(entries[i]))
  }

  ghost predicate StandsRelocations(file: seq<Byte>, at: nat, relas: seq<Rela>) {
    forall i :: 0 <= i < |relas| ==> Stands(file, at + 24 * i, EncodeRela(relas[i]))
  }

  lemma DynRoundTrip(file: seq<Byte>, at: nat, d: Dyn)
    requires at + 16 <= |file|
    ensures Stands(file, at, EncodeDyn(d)) <==> Dyn(Word(file, at), Word(file, at + 8)) == d
  {
    hide Stands, Word, Words;
    var values := [d.tag, d.value];
    StandsWords(file, at, values);
    if forall i :: 0 <= i < 2 ==> Word(file, at + 8 * i) == values[i] {
      assert Word(file, at + 8 * 0) == values[0] && Word(file, at + 8 * 1) == values[1];
    }
  }

  lemma RelaRoundTrip(file: seq<Byte>, at: nat, r: Rela)
    requires at + 24 <= |file|
    ensures Stands(file, at, EncodeRela(r)) <==> Rela(Word(file, at), Word(file, at + 8), Word(file, at + 16)) == r
  {
    hide Stands, Word, Words;
    var values := [r.offset, r.info, r.addend];
    StandsWords(file, at, values);
    if forall i :: 0 <= i < 3 ==> Word(file, at + 8 * i) == values[i] {
      assert Word(file, at + 8 * 0) == values[0] && Word(file, at + 8 * 1) == values[1];
      assert Word(file, at + 8 * 2) == values[2];
    }
  }

  /** The dynamic entries are read exactly where their bytes stand. */
  lemma DynamicRoundTrip(file: seq<Byte>, at: nat, entries: seq<Dyn>)
    requires at + 16 * |entries| <= |file|
    ensures StandsDynamic(file, at, entries) <==> Entries(file, at, |entries|) == entries
  {
    hide Stands, EncodeDyn, Word;
    forall i | 0 <= i < |entries|
      ensures Stands(file, at + 16 * i, EncodeDyn(entries[i])) <==>
        Dyn(Word(file, at + 16 * i), Word(file, at + 16 * i + 8)) == entries[i]
    {
      DynRoundTrip(file, at + 16 * i, entries[i]);
    }
  }

  /** The relocations are read exactly where their bytes stand. */
  lemma RelocationsRoundTrip(file: seq<Byte>, at: nat, relas: seq<Rela>)
    requires at + 24 * |relas| <= |file|
    ensures StandsRelocations(file, at, relas) <==> Relocations(file, at, |relas|) == relas
  {
    hide Stands, EncodeRela, Word;
    forall i | 0 <= i < |relas|
      ensures Stands(file, at + 24 * i, EncodeRela(relas[i])) <==>
        Rela(Word(file, at + 24 * i), Word(file, at + 24 * i + 8), Word(file, at + 24 * i + 16)) == relas[i]
    {
      RelaRoundTrip(file, at + 24 * i, relas[i]);
    }
  }

  // ----- The file header -----

  const MAGIC: seq<Byte> := [0x7F, 0x45, 0x4C, 0x46, 2, 1, 1]

  /** The fields of the file header that may vary; the loader reads the entry and the place of the table. */
  datatype FileHeader = FileHeader(
    padding: seq<Byte>, entry: U64, phoff: U64, shoff: U64, flags: U32, phnum: nat, sections: seq<Byte>)
  {
    predicate Valid() { |padding| == 9 && |sections| == 6 && phnum < 0x1_0000 }
  }

  function EncodeKind(): seq<Byte> {
    Store(2, 3) + (Store(2, 62) + StoreU32(1))
  }

  function EncodeSizes(h: FileHeader): seq<Byte> {
    StoreU32(h.flags) + (Store(2, 64) + (Store(2, 56) + (Store(2, h.phnum) + h.sections)))
  }

  function EncodeHeader(h: FileHeader): (r: seq<Byte>)
    requires h.Valid()
    ensures |r| == 64
  {
    MAGIC + (h.padding + (EncodeKind() + (Words([h.entry, h.phoff, h.shoff]) + EncodeSizes(h))))
  }

  lemma StandsShort(file: seq<Byte>, at: nat, value: nat)
    requires value < 0x1_0000
    ensures Stands(file, at, Store(2, value)) <==> at + 2 <= |file| && Short(file, at) == value
  {
    assert Pow256(2) == 0x1_0000;
    StandsNumber(file, at, 2, value);
  }

  lemma KindRoundTrip(file: seq<Byte>)
    ensures Stands(file, 16, EncodeKind()) <==>
      |file| >= 24 && Short(file, 16) == 3 && Short(file, 18) == 62 && Half(file, 20) == 1
  {
    hide Stands, Half, Short, Store, StoreU32;
    StandsBoth(file, 16, Store(2, 3), Store(2, 62) + StoreU32(1));
    StandsBoth(file, 18, Store(2, 62), StoreU32(1));
    StandsShort(file, 16, 3);
    StandsShort(file, 18, 62);
    StandsHalf(file, 20, 1);
  }

  lemma SizesRoundTrip(file: seq<Byte>, h: FileHeader)
    requires h.Valid()
    ensures Stands(file, 48, EncodeSizes(h)) <==>
      && |file| >= 64 && Half(file, 48) == h.flags && Short(file, 52) == 64 && Short(file, 54) == 56
      && Short(file, 56) == h.phnum && Stands(file, 58, h.sections)
  {
    hide Half, Short, Store, StoreU32;
    assert Stands(file, 58, h.sections) ==> |file| >= 64;
    hide Stands;
    StandsBoth(file, 48, StoreU32(h.flags), Store(2, 64) + (Store(2, 56) + (Store(2, h.phnum) + h.sections)));
    StandsBoth(file, 52, Store(2, 64), Store(2, 56) + (Store(2, h.phnum) + h.sections));
    StandsBoth(file, 54, Store(2, 56), Store(2, h.phnum) + h.sections);
    StandsBoth(file, 56, Store(2, h.phnum), h.sections);
    StandsHalf(file, 48, h.flags);
    StandsShort(file, 52, 64);
    StandsShort(file, 54, 56);
    StandsShort(file, 56, h.phnum);
  }

  lemma ThreeWords(file: seq<Byte>, at: nat, a: U64, b: U64, c: U64)
    requires at <= |file|
    ensures Stands(file, at, Words([a, b, c])) <==>
      at + 24 <= |file| && Word(file, at) == a && Word(file, at + 8) == b && Word(file, at + 16) == c
  {
    if at + 24 <= |file| {
      RelaRoundTrip(file, at, Rela(a, b, c));
    }
  }

  /** The file header is read exactly where its bytes stand. */
  lemma HeaderRoundTrip(file: seq<Byte>, h: FileHeader)
    requires h.Valid()
    ensures Stands(file, 0, EncodeHeader(h)) <==>
      && |file| >= 64 && Stands(file, 0, MAGIC) && Stands(file, 7, h.padding)
      && Short(file, 16) == 3 && Short(file, 18) == 62 && Half(file, 20) == 1
      && Word(file, 24) == h.entry && Word(file, 32) == h.phoff && Word(file, 40) == h.shoff
      && Half(file, 48) == h.flags && Short(file, 52) == 64 && Short(file, 54) == 56
      && Short(file, 56) == h.phnum && Stands(file, 58, h.sections)
  {
    hide Stands, Half, Short, Word, Words, EncodeSizes, EncodeKind;
    var words, sizes := Words([h.entry, h.phoff, h.shoff]), EncodeSizes(h);
    HeaderParts(h);
    StandsBoth(file, 0, MAGIC, h.padding + (EncodeKind() + (words + sizes)));
    StandsBoth(file, 7, h.padding, EncodeKind() + (words + sizes));
    StandsBoth(file, 16, EncodeKind(), words + sizes);
    StandsBoth(file, 24, words, sizes);
    KindRoundTrip(file);
    if |file| >= 24 {
      ThreeWords(file, 24, h.entry, h.phoff, h.shoff);
    }
    SizesRoundTrip(file, h);
  }

  lemma HeaderParts(h: FileHeader)
    requires h.Valid()
    ensures |EncodeKind()| == 8 && |EncodeSizes(h)| == 16
  {
  }

  /** The file begins with the header and has the program headers where it says. */
  ghost predicate Headed(file: seq<Byte>, h: FileHeader, programs: seq<Phdr>) {
    && h.Valid() && 1 <= |programs| <= 64 && h.phnum == |programs|
    && Stands(file, 0, EncodeHeader(h)) && StandsTable(file, h.phoff, programs)
  }
}
