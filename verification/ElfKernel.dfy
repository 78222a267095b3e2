/**
 A whole kernel file: what the loader makes of a file written from program
 headers, a dynamic section and a relocation table.
 */
module ElfKernel {
  import opened Bytes
  import opened Elf
  import opened ElfBytes
  import opened ElfRelocate
  import opened ElfLoad

  /** The parts a kernel file is written from; header `dynamic` describes the dynamic section. */
  datatype Kernel = Kernel(
    header: FileHeader, programs: seq<Phdr>, dynamic: nat, entries: seq<Dyn>, tableAt: nat, relas: seq<Rela>)
  {
    ghost function TableInfo(): Info {
      Collected(Live(entries))
    }

    /** The dynamic entries say where the relocation table is and how long it is. */
    ghost predicate Consistent(fileSize: nat) {
      && dynamic < |programs| && programs[dynamic].kind == PT_DYNAMIC
      && programs[dynamic].filesz == 16 * |entries|
      && (TableOk(TableInfo()) ==>
        && TableInfo().size.value == 24 * |relas|
        && FirstBacking(programs, TableInfo().rela.value, TableInfo().size.value, fileSize) == tableAt)
    }

    /** The file holds every part where the others say it is. */
    ghost predicate WrittenTo(file: seq<Byte>) {
      && Consistent(|file|) && Headed(file, header, programs)
      && programs[dynamic].offset + 16 * |entries| <= |file| && StandsDynamic(file, programs[dynamic].offset, entries)
      && tableAt + 24 * |relas| <= |file| && StandsRelocations(file, tableAt, relas)
    }

    /** The loader takes the kernel at the base. */
    ghost predicate LoadsAt(fileSize: nat, base: U64) {
      && dynamic < |programs|
      && Accepted(programs, fileSize, header.entry, header.phoff + 56 * |programs|)
      && base + ImageEnd(programs) <= UINT64_MAX
      && DynamicHeaderOk(programs, programs[dynamic], fileSize) && DynamicOk(entries) && TableOk(TableInfo())
      && tableAt % 8 == 0 && RelocationsOk(programs, relas, base)
    }
  }

  lemma WrittenDescribed(file: seq<Byte>, k: Kernel)
    requires k.WrittenTo(file)
    ensures Described(file, k.programs, k.programs[k.dynamic]) <==>
      && DynamicHeaderOk(k.programs, k.programs[k.dynamic], |file|) && DynamicOk(k.entries) && TableOk(k.TableInfo())
      && k.tableAt % 8 == 0
    ensures Described(file, k.programs, k.programs[k.dynamic]) ==>
      RelocationTable(file, k.programs, k.programs[k.dynamic]) == k.relas
  {
    hide Headed, StandsDynamic, StandsRelocations, Find, Live, DynamicOk, FirstBacking, TableOk;
    var d := k.programs[k.dynamic];
    DynamicRoundTrip(file, d.offset, k.entries);
    RelocationsRoundTrip(file, k.tableAt, k.relas);
  }

  /** An accepted table has one dynamic header, so the file is loadable by what that header says. */
  lemma LoadableByOne(file: seq<Byte>, base: U64, d: nat)
    requires HeaderOk(file) && d < |Table(file)| && Table(file)[d].kind == PT_DYNAMIC
    ensures Loadable(file, base) <==>
      var programs := Table(file);
      && Accepted(programs, |file|, Entry(file), HeadersEnd(file)) && base + ImageEnd(programs) <= UINT64_MAX
      && Described(file, programs, programs[d])
      && RelocationsOk(programs, RelocationTable(file, programs, programs[d]), base)
  {
    hide Described, RelocationTable, RelocationsOk, ImageEnd, Accepted, HeaderOk, Table, Entry, HeadersEnd, SegmentsOk;
    var programs := Table(file);
    if Accepted(programs, |file|, Entry(file), HeadersEnd(file)) {
      AcceptedFacts(programs, |file|, Entry(file), HeadersEnd(file));
      assert forall i :: 0 <= i < |programs| && programs[i].kind == PT_DYNAMIC ==> i == d;
    }
  }

  /** A written kernel is loaded at the base exactly when its parts are acceptable. */
  lemma WrittenLoadable(file: seq<Byte>, k: Kernel, base: U64)
    requires k.WrittenTo(file)
    ensures Loadable(file, base) <==> k.LoadsAt(|file|, base)
  {
    hide Described, RelocationTable, DynamicHeaderOk, DynamicOk, TableOk, RelocationsOk, ImageEnd, Accepted, Headed,
         HeaderOk, Table, Entry, HeadersEnd, Loadable, StandsDynamic, StandsRelocations, FirstBacking, Find, Live,
         Collected;
    HeadedRead(file, k.header, k.programs);
    WrittenDescribed(file, k);
    LoadableByOne(file, base, k.dynamic);
  }

  /** The image of a written kernel: its relocated slots, the file bytes of its segments, and zeros. */
  lemma WrittenImage(file: seq<Byte>, k: Kernel, base: U64, image: seq<Byte>)
    requires k.WrittenTo(file) && NoHollow(k.programs)
    requires Loadable(file, base) && ImageIs(file, base, image)
    ensures |image| == ImageEnd(k.programs)
    ensures SlotsRelocated(k.relas, base, image) && FileBytes(k.programs, file, k.relas, image)
    ensures ZeroElsewhere(k.programs, k.relas, image) && ProtectedKept(k.programs, k.relas)
    ensures exists i :: 0 <= i < |k.programs| && k.programs[i].Executable() && k.programs[i].Maps(k.header.entry)
  {
    hide Described, RelocationTable, DynamicHeaderOk, DynamicOk, TableOk, RelocationsOk, ImageEnd, Accepted, Headed,
         SlotsRelocated, FileBytes, ZeroElsewhere, ProtectedKept, ImageByte;
    HeadedRead(file, k.header, k.programs);
    WrittenDescribed(file, k);
    LoadedImage(file, base, image, k.dynamic);
  }
}
