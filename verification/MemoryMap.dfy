/** Firmware memory descriptors and the region list the boot protocol hands over. */
module MemoryMap {
  import opened Bytes

  const PAGE_SIZE: nat := 4096
  const MAX_REGIONS: nat := 4096
  const MAX_DESCRIPTOR_SIZE: nat := 4096
  const DESCRIPTOR_SIZE: nat := 40

  datatype Descriptor = Descriptor(kind: U32, start: U64, pages: U64, attributes: U64)

  datatype Region = Region(start: U64, pages: U64, kind: U32, reserved: U32, attributes: U64)

  /** The memory types of the boot protocol, by the firmware's type number. */
  function NormalizeType(kind: U32): (r: U32)
    ensures r <= 4
    ensures (r == 1 <==> kind == 7) && (r == 2 <==> kind == 9) && (r == 3 <==> kind == 10)
    ensures r == 4 <==> kind == 11 || kind == 12
  {
    if kind == 7 then 1
    else if kind == 9 then 2
    else if kind == 10 then 3
    else if kind == 11 || kind == 12 then 4
    else 0
  }

  function RegionOf(d: Descriptor): Region {
    Region(d.start, d.pages, NormalizeType(d.kind), 0, d.attributes)
  }

  /** The regions of the nonempty descriptors, in order. */
  function Regions(ds: seq<Descriptor>): (r: seq<Region>)
    ensures |r| <= |ds|
  {
    if ds == [] then []
    else
      var last := ds[|ds| - 1];
      Regions(ds[..|ds| - 1]) + if last.pages != 0 then [RegionOf(last)] else []
  }

  predicate DescriptorOk(d: Descriptor) {
    d.pages != 0 ==> d.start % PAGE_SIZE == 0 && d.pages <= (UINT64_MAX - d.start) / PAGE_SIZE
  }

  predicate MapOk(ds: seq<Descriptor>) {
    forall i :: 0 <= i < |ds| ==> DescriptorOk(ds[i])
  }

  /** What one GetMemoryMap call left in the raw buffer. */
  datatype Raw = Raw(data: seq<Descriptor>, capacity: nat, size: nat, descriptorSize: nat)
  {
    ghost predicate WellSized() {
      && DESCRIPTOR_SIZE <= descriptorSize <= MAX_DESCRIPTOR_SIZE
      && size <= capacity && size % descriptorSize == 0
    }

    /** The descriptors at every stride offset below the size. */
    ghost function Read(): seq<Descriptor>
      requires WellSized() && size / descriptorSize <= |data|
    {
      data[..size / descriptorSize]
    }
  }

  // ----- What the regions are -----

  /** The region describes the memory of the descriptor. */
  predicate Describes(d: Descriptor, r: Region) {
    && r.start == d.start && r.pages == d.pages && r.attributes == d.attributes && r.reserved == 0 && r.kind <= 4
    && (r.kind == 1 <==> d.kind == 7) && (r.kind == 2 <==> d.kind == 9) && (r.kind == 3 <==> d.kind == 10)
    && (r.kind == 4 <==> d.kind == 11 || d.kind == 12)
  }

  /** The regions are those of the descriptors at the given positions, which are all the nonempty ones in order. */
  ghost predicate Picks(ds: seq<Descriptor>, regions: seq<Region>, at: seq<nat>) {
    && |at| == |regions|
    && (forall k, m :: 0 <= k < m < |at| ==> at[k] < at[m])
    && (forall k :: 0 <= k < |at| ==> at[k] < |ds| && ds[at[k]].pages != 0 && Describes(ds[at[k]], regions[k]))
    && (forall i :: 0 <= i < |ds| && ds[i].pages != 0 ==> i in at)
  }

  /** Every nonempty descriptor, and nothing else, is handed over as a region, in order. */
  ghost predicate Normalizes(ds: seq<Descriptor>, regions: seq<Region>) {
    exists at :: Picks(ds, regions, at)
  }

  lemma PicksStep(ds: seq<Descriptor>, d: Descriptor, regions: seq<Region>, at: seq<nat>, r: Region)
    requires Picks(ds, regions, at) && d.pages != 0 && Describes(d, r)
    ensures Picks(ds + [d], regions + [r], at + [|ds|])
  {
    var all, more := ds + [d], at + [|ds|];
    forall i | 0 <= i < |all| && all[i].pages != 0 ensures i in more {
      if i < |ds| {
        assert i in at;
      } else {
        assert more[|at|] == i;
      }
    }
  }

  lemma PicksSkip(ds: seq<Descriptor>, d: Descriptor, regions: seq<Region>, at: seq<nat>)
    requires Picks(ds, regions, at) && d.pages == 0
    ensures Picks(ds + [d], regions, at)
  {
    var all := ds + [d];
    forall i | 0 <= i < |all| && all[i].pages != 0 ensures i in at {
      assert all[i] == ds[i];
    }
  }

  lemma {:induction false} RegionsNormalize(ds: seq<Descriptor>)
    ensures Normalizes(ds, Regions(ds))
  {
    if ds == [] {
      assert Picks(ds, [], []);
    } else {
      var n := |ds| - 1;
      var regions, d := Regions(ds[..n]), ds[n];
      RegionsNormalize(ds[..n]);
      var at :| Picks(ds[..n], regions, at);
      assert ds == ds[..n] + [d];
      if d.pages != 0 {
        PicksStep(ds[..n], d, regions, at, RegionOf(d));
      } else {
        PicksSkip(ds[..n], d, regions, at);
        assert Regions(ds) == regions;
      }
    }
  }

  lemma {:induction false} RegionsPrefix(ds: seq<Descriptor>, n: nat)
    requires n <= |ds|
    ensures |Regions(ds[..n])| <= |Regions(ds)|
    decreases |ds| - n
  {
    if n < |ds| {
      assert ds[..n + 1][..n] == ds[..n];
      RegionsPrefix(ds, n + 1);
    } else {
      assert ds[..n] == ds;
    }
  }

  /** Appends the regions of the nonempty descriptors to the buffer, in order. */
  method Fill(ds: seq<Descriptor>, regions: array<Region>) returns (ok: bool, count: nat)
    modifies regions
    ensures ok <==> MapOk(ds) && 0 < |Regions(ds)| <= regions.Length
    ensures ok ==> count <= regions.Length && regions[..count] == Regions(ds)
  {
    hide DescriptorOk;
    count := 0;
    var index := 0;
    while index < |ds|
      invariant 0 <= index <= |ds|
      invariant count <= regions.Length && regions[..count] == Regions(ds[..index])
      invariant MapOk(ds[..index])
    {
      var descriptor := ds[index];
      assert ds[..index + 1][..index] == ds[..index];
      RegionsPrefix(ds, index + 1);
      EmptyIsOk(descriptor);
      if descriptor.pages != 0 {
        if count >= regions.Length || !DescriptorOk(descriptor) {
          return false, 0;
        }
        regions[count] := RegionOf(descriptor);
        assert regions[..count + 1] == Regions(ds[..index]) + [RegionOf(descriptor)];
        count := count + 1;
      }
      index := index + 1;
    }
    assert ds[..index] == ds;
    ok := count != 0;
  }

  lemma EmptyIsOk(d: Descriptor)
    ensures d.pages == 0 ==> DescriptorOk(d)
  {
  }

  /** Fills the region buffer with the normalization of the raw map, or refuses it. */
  method NormalizeMemoryMap(raw: Raw, regions: array<Region>) returns (ok: bool, count: nat)
    requires raw.WellSized() ==> raw.size / raw.descriptorSize <= |raw.data|
    modifies regions
    ensures ok <==> raw.WellSized() && MapOk(raw.Read()) && 0 < |Regions(raw.Read())| <= regions.Length
    ensures ok ==> count <= regions.Length && regions[..count] == Regions(raw.Read())
    ensures ok ==> Normalizes(raw.Read(), regions[..count])
  {
    if raw.descriptorSize < DESCRIPTOR_SIZE || raw.descriptorSize > MAX_DESCRIPTOR_SIZE
       || raw.size > raw.capacity || raw.size % raw.descriptorSize != 0 {
      return false, 0;
    }
    ok, count := Fill(raw.data[..raw.size / raw.descriptorSize], regions);
    RegionsNormalize(raw.Read());
  }

  // ----- Properties of the normalization -----

  /** The pages of all regions of one type. */
  function PagesOf(regions: seq<Region>, kind: U32): nat {
    if regions == [] then 0
    else
      var last := regions[|regions| - 1];
      PagesOf(regions[..|regions| - 1], kind) + if last.kind == kind then last.pages else 0
  }

  /** The pages of all descriptors whose firmware type normalizes to it. */
  function MappedPages(ds: seq<Descriptor>, kind: U32): nat {
    if ds == [] then 0
    else
      var last := ds[|ds| - 1];
      MappedPages(ds[..|ds| - 1], kind) + if NormalizeType(last.kind) == kind then last.pages else 0
  }

  lemma PagesOfOneMore(regions: seq<Region>, r: Region, kind: U32)
    ensures PagesOf(regions + [r], kind) == PagesOf(regions, kind) + if r.kind == kind then r.pages else 0
  {
  }

  /** Normalization neither loses nor invents a page of any type. */
  lemma {:induction false} PagesConserved(ds: seq<Descriptor>, kind: U32)
    ensures PagesOf(Regions(ds), kind) == MappedPages(ds, kind)
  {
    hide PagesOf;
    if ds == [] {
      assert PagesOf([], kind) == 0 by { NoPages(kind); }
    } else {
      var shorter, last := ds[..|ds| - 1], ds[|ds| - 1];
      PagesConserved(shorter, kind);
      if last.pages != 0 {
        PagesOfOneMore(Regions(shorter), RegionOf(last), kind);
      } else {
        assert Regions(ds) == Regions(shorter);
      }
    }
  }

  lemma NoPages(kind: U32)
    ensures PagesOf([], kind) == 0
  {
  }

  /** A region the kernel can accept, apart from where the kernel itself lies. */
  predicate RegionOk(r: Region) {
    && r.pages != 0 && r.reserved == 0 && r.kind <= 7
    && r.start % PAGE_SIZE == 0 && r.pages <= UINT64_MAX / PAGE_SIZE && r.start + r.pages * PAGE_SIZE <= UINT64_MAX
  }

  lemma RegionOfOk(d: Descriptor)
    requires DescriptorOk(d) && d.pages != 0
    ensures RegionOk(RegionOf(d))
  {
  }

  lemma {:induction false} NormalizedOk(ds: seq<Descriptor>)
    requires MapOk(ds)
    ensures forall i :: 0 <= i < |Regions(ds)| ==> RegionOk(Regions(ds)[i])
  {
    if ds != [] {
      NormalizedOk(ds[..|ds| - 1]);
      if ds[|ds| - 1].pages != 0 {
        RegionOfOk(ds[|ds| - 1]);
      }
    }
  }
}
