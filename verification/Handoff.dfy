/**
 The boot information from both sides: how the loader completes it and what the
 kernel accepts. The loader's record is accepted exactly under conditions on
 the firmware's answers that can be read off before the handoff.
 */
module Handoff {
  import opened Bytes
  import opened Options
  import opened MemoryMap
  import Elf
  import ElfLoad

  const BOOT_MAGIC: U64 := 0x4B55524F47414E45
  const BOOT_VERSION: U32 := 3
  const BOOT_INFO_SIZE: U32 := 112
  const REGION_SIZE: nat := 32
  const INT32_MAX: nat := 0x7FFF_FFFF
  const PACKAGE_LIMIT: nat := 16 * 1024 * 1024

  const FLAG_SAFE_MODE: U64 := 1
  const FLAG_FORCE_DESKTOP: U64 := 2
  const FLAG_DIAGNOSTICS: U64 := 4
  const FLAG_INSTALLER: U64 := 8
  const KNOWN_FLAGS: U64 := 15

  datatype Framebuffer = Framebuffer(base: U64, width: U32, height: U32, pitch: U32, bpp: U32, format: U32)

  datatype BootInfo = BootInfo(
    magic: U64, version: U32, size: U32, framebuffer: Framebuffer,
    regionsAddress: U64, regions: seq<Region>,
    kernelStart: U64, kernelEnd: U64, flags: U64, package: U64, packageSize: U64)

  // ----- The loader's side -----

  /** What the graphics protocol reports; described tells whether the mode record is complete. */
  datatype Graphics = Graphics(
    described: bool, width: U32, height: U32, scanLine: U32, format: U32, base: U64, size: U64)

  method PrepareFramebuffer(g: Graphics) returns (framebuffer: Option<Framebuffer>)
    ensures framebuffer.Some? <==>
      && g.described && 0 < g.width <= g.scanLine <= UINT32_MAX / 4 && 0 < g.height && g.format <= 1
      && g.base != 0 && g.scanLine * 4 * g.height <= g.size && g.base + g.scanLine * 4 * g.height <= UINT64_MAX
    ensures framebuffer.Some? ==>
      framebuffer.value == Framebuffer(g.base, g.width, g.height, g.scanLine * 4, 32, 1 - g.format)
  {
    if !g.described {
      return None;
    }
    if g.width == 0 || g.height == 0 || g.scanLine < g.width || g.scanLine > UINT32_MAX / 4 {
      return None;
    }
    var pitch := g.scanLine * 4;
    ProductFits(pitch, g.height);
    if g.height > UINT64_MAX / pitch {
      return None;
    }
    var required := pitch * g.height;
    if g.base == 0 || required > UINT64_MAX - g.base || required > g.size {
      return None;
    }
    if g.format == 1 {
      return Some(Framebuffer(g.base, g.width, g.height, pitch, 32, 0));
    } else if g.format == 0 {
      return Some(Framebuffer(g.base, g.width, g.height, pitch, 32, 1));
    }
    return None;
  }

  lemma ProductFits(pitch: U32, height: U32)
    requires pitch != 0
    ensures 0 <= pitch * height <= UINT64_MAX && height <= UINT64_MAX / pitch
  {
  }

  datatype Status = Success | NotFound | OtherError

  /** The firmware's answers while one file is loaded. */
  datatype FileAnswers = FileAnswers(
    open: Status, size: U64, pages: Status, address: U64, read: Status, readSize: U64)

  /** The file opened with a size that pages can hold. */
  predicate Sized(a: FileAnswers) {
    a.open.Success? && 0 < a.size <= UINT64_MAX - 4095
  }

  /** Every answer was a success and the whole file was read. */
  predicate Loads(a: FileAnswers) {
    Sized(a) && a.pages.Success? && a.read.Success? && a.readSize == a.size
  }

  /** Some step said that there is no such thing. */
  predicate Missing(a: FileAnswers) {
    a.open.NotFound? || (Sized(a) && (a.pages.NotFound? || (a.pages.Success? && a.read.NotFound?)))
  }

  /** The outputs of loading a file; a failed page allocation leaves the size behind. */
  function LoadFile(a: FileAnswers): (r: (Status, U64, U64))
    ensures r.0.Success? <==> Loads(a)
    ensures r.0.Success? ==> r.1 == a.address && r.2 == a.size != 0
    ensures r.0.NotFound? <==> Missing(a)
    ensures r.0.NotFound? ==> r.1 == 0 && r.2 == if Sized(a) && a.pages.NotFound? then a.size else 0
  {
    if !a.open.Success? then (a.open, 0, 0)
    else if a.size == 0 || a.size > UINT64_MAX - 4095 then (OtherError, 0, 0)
    else if !a.pages.Success? then (a.pages, 0, a.size)
    else if !a.read.Success? then (a.read, 0, 0)
    else if a.readSize != a.size then (OtherError, 0, 0)
    else (Success, a.address, a.size)
  }

  datatype Key = NoKey | Pressed(scan: nat, character: char)

  function FlagsFor(key: Key): Option<U64> {
    match key
    case NoKey => None
    case Pressed(scan, c) =>
      if scan == 0x12 || c == 's' || c == 'S' then Some(FLAG_SAFE_MODE)
      else if c == 'd' || c == 'D' then Some(FLAG_FORCE_DESKTOP)
      else if c == 'c' || c == 'C' then Some(0)
      else if c == 'x' || c == 'X' then Some(FLAG_SAFE_MODE + FLAG_DIAGNOSTICS)
      else None
  }

  /** The flags of the first meaningful key among 150 polls, or the desktop. */
  method RequestBootFlags(keys: seq<Key>) returns (flags: U64)
    requires |keys| == 150
    ensures
      || (exists i :: 0 <= i < 150 && FlagsFor(keys[i]) == Some(flags)
            && forall j :: 0 <= j < i ==> FlagsFor(keys[j]).None?)
      || (flags == FLAG_FORCE_DESKTOP && forall j :: 0 <= j < 150 ==> FlagsFor(keys[j]).None?)
    ensures flags < FLAG_INSTALLER
  {
    var attempt := 0;
    while attempt < 150
      invariant 0 <= attempt <= 150
      invariant forall j :: 0 <= j < attempt ==> FlagsFor(keys[j]).None?
    {
      var choice := FlagsFor(keys[attempt]);
      if choice.Some? {
        return choice.value;
      }
      attempt := attempt + 1;
    }
    flags := FLAG_FORCE_DESKTOP;
  }

  /** The firmware answered in a way the loader carries on with. */
  ghost predicate Completes(g: Graphics, package: FileAnswers) {
    && g.described && 0 < g.width <= g.scanLine <= UINT32_MAX / 4 && 0 < g.height && g.format <= 1
    && g.base != 0 && g.scanLine * 4 * g.height <= g.size && g.base + g.scanLine * 4 * g.height <= UINT64_MAX
    && (Missing(package) || (Loads(package) && package.size <= PACKAGE_LIMIT))
  }

  /** The loader's record once every step succeeded. */
  ghost function Completed(g: Graphics, flags: U64, package: FileAnswers, kernel: ElfLoad.Outcome,
                           regionsAddress: U64, regions: seq<Region>): BootInfo
    requires Completes(g, package) && kernel.Loaded?
  {
    var (status, address, size) := LoadFile(package);
    BootInfo(BOOT_MAGIC, BOOT_VERSION, BOOT_INFO_SIZE,
             Framebuffer(g.base, g.width, g.height, g.scanLine * 4, 32, 1 - g.format),
             regionsAddress, regions, kernel.start, kernel.end,
             if status.Success? then FLAG_INSTALLER else flags, address, size)
  }

  // ----- The kernel's side -----

  datatype Context = Context(safeMode: bool, forceDesktop: bool, diagnostics: bool, installer: bool)

  predicate ValidFramebuffer(f: Framebuffer) {
    && f.base != 0 && 0 < f.width <= INT32_MAX && 0 < f.height <= INT32_MAX
    && f.width <= UINT32_MAX / 4 && f.bpp == 32 && f.pitch % 4 == 0 && f.pitch >= f.width * 4
    && f.format <= 1 && f.base % 4 == 0
    && f.height <= UINT64_MAX / f.pitch && f.base + f.height * f.pitch <= UINT64_MAX
  }

  predicate OverlapsKernel(r: Region, start: U64, end: U64) {
    r.kind == 1 && start < r.start + r.pages * PAGE_SIZE && r.start < end
  }

  ghost predicate MapAccepted(info: BootInfo) {
    && info.regionsAddress != 0 && 0 < |info.regions| <= MAX_REGIONS
    && info.regionsAddress % 8 == 0 && info.regionsAddress + |info.regions| * REGION_SIZE <= UINT64_MAX
    && forall i :: 0 <= i < |info.regions| ==>
         RegionOk(info.regions[i]) && !OverlapsKernel(info.regions[i], info.kernelStart, info.kernelEnd)
  }

  method ValidMemoryMap(info: BootInfo) returns (ok: bool)
    ensures ok <==> MapAccepted(info)
  {
    if info.regionsAddress == 0 || |info.regions| == 0 || |info.regions| > MAX_REGIONS {
      return false;
    }
    var bytes := |info.regions| * REGION_SIZE;
    if info.regionsAddress % 8 != 0 || info.regionsAddress > UINT64_MAX - bytes {
      return false;
    }
    var index := 0;
    while index < |info.regions|
      invariant 0 <= index <= |info.regions|
      invariant forall i :: 0 <= i < index ==>
        RegionOk(info.regions[i]) && !OverlapsKernel(info.regions[i], info.kernelStart, info.kernelEnd)
    {
      var r := info.regions[index];
      if r.pages == 0 || r.reserved != 0 || r.kind > 7 || r.start % PAGE_SIZE != 0 || r.pages > UINT64_MAX / PAGE_SIZE {
        return false;
      }
      var regionBytes := r.pages * PAGE_SIZE;
      if r.start > UINT64_MAX - regionBytes {
        return false;
      }
      if r.kind == 1 && info.kernelStart < r.start + regionBytes && r.start < info.kernelEnd {
        return false;
      }
      index := index + 1;
    }
    ok := true;
  }

  predicate PackageAccepted(info: BootInfo) {
    if info.flags / FLAG_INSTALLER % 2 == 1 then
      && info.package != 0 && info.package % PAGE_SIZE == 0
      && 0 < info.packageSize <= PACKAGE_LIMIT && info.package + info.packageSize <= UINT64_MAX
    else info.package == 0 && info.packageSize == 0
  }

  ghost predicate Accepted(info: BootInfo) {
    && info.magic == BOOT_MAGIC && info.version == BOOT_VERSION && info.size >= BOOT_INFO_SIZE
    && 0 < info.kernelStart < info.kernelEnd
    && info.kernelStart % PAGE_SIZE == 0 && info.kernelEnd % PAGE_SIZE == 0
    && info.flags <= KNOWN_FLAGS
    && ValidFramebuffer(info.framebuffer) && MapAccepted(info) && PackageAccepted(info)
  }

  method ParseBootArgument(info: BootInfo) returns (context: Option<Context>)
    ensures context.Some? <==> Accepted(info)
    ensures context.Some? ==>
      && (context.value.installer <==> info.flags / FLAG_INSTALLER % 2 == 1)
      && (context.value.diagnostics <==> info.flags / FLAG_DIAGNOSTICS % 2 == 1)
      && (context.value.safeMode <==> info.flags % 2 == 1 || info.flags / FLAG_DIAGNOSTICS % 2 == 1)
      && (context.value.forceDesktop <==> info.flags / FLAG_FORCE_DESKTOP % 2 == 1)
  {
    if info.magic != BOOT_MAGIC || info.version != BOOT_VERSION || info.size < BOOT_INFO_SIZE
       || info.kernelStart == 0 || info.kernelStart >= info.kernelEnd
       || info.kernelStart % PAGE_SIZE != 0 || info.kernelEnd % PAGE_SIZE != 0
       || info.flags > KNOWN_FLAGS || !ValidFramebuffer(info.framebuffer) {
      return None;
    }
    var map_ := ValidMemoryMap(info);
    if !map_ || !PackageAccepted(info) {
      return None;
    }
    var diagnostics := info.flags / FLAG_DIAGNOSTICS % 2 == 1;
    context := Some(Context(info.flags % 2 == 1 || diagnostics, info.flags / FLAG_FORCE_DESKTOP % 2 == 1, diagnostics,
                            info.flags / FLAG_INSTALLER % 2 == 1));
  }

  // ----- Both sides together -----

  /** The firmware's answers suit the kernel: alignments, a small enough screen, no usable page under the kernel. */
  ghost predicate Suitable(
    g: Graphics, package: FileAnswers, kernel: ElfLoad.Outcome, regionsAddress: U64, regions: seq<Region>)
    requires kernel.Loaded?
  {
    && g.base % 4 == 0 && g.height <= INT32_MAX
    && kernel.start != 0 && kernel.start % PAGE_SIZE == 0
    && regionsAddress != 0 && regionsAddress % 8 == 0 && regionsAddress + |regions| * REGION_SIZE <= UINT64_MAX
    && (forall i :: 0 <= i < |regions| ==> !OverlapsKernel(regions[i], kernel.start, kernel.end))
    && (if Loads(package)
        then package.address != 0 && package.address % PAGE_SIZE == 0 && package.address + package.size <= UINT64_MAX
        else !(Sized(package) && package.pages.NotFound?))
  }

  lemma FramebufferSuits(g: Graphics, package: FileAnswers)
    requires Completes(g, package)
    ensures ValidFramebuffer(Framebuffer(g.base, g.width, g.height, g.scanLine * 4, 32, 1 - g.format)) <==>
            g.base % 4 == 0 && g.height <= INT32_MAX
  {
    ProductFits(g.scanLine * 4, g.height);
    assert g.height * (g.scanLine * 4) == g.scanLine * 4 * g.height;
  }

  /**
   The kernel accepts what the loader completed, for a loaded kernel file and
   the normalization of a firmware map, exactly when the answers are suitable.
   */
  lemma HandoffAccepted(g: Graphics, flags: U64, package: FileAnswers, file: seq<Byte>, kernel: ElfLoad.Outcome,
                        regionsAddress: U64, ds: seq<Descriptor>)
    requires Completes(g, package) && flags < FLAG_INSTALLER
    requires kernel.Loaded? && ElfLoad.Loadable(file, kernel.start)
    requires kernel.end == kernel.start + Elf.ImageEnd(ElfLoad.Table(file))
    requires MapOk(ds) && 0 < |Regions(ds)| <= MAX_REGIONS
    ensures Accepted(Completed(g, flags, package, kernel, regionsAddress, Regions(ds))) <==>
            Suitable(g, package, kernel, regionsAddress, Regions(ds))
  {
    hide ElfLoad.Loadable, Elf.ImageEnd, Regions, RegionOk, MapOk, Accepted, Completes, Suitable, Completed;
    KernelSpan(file, kernel);
    NormalizedOk(ds);
    AcceptedIff(g, flags, package, kernel, regionsAddress, Regions(ds));
  }

  lemma AcceptedIff(g: Graphics, flags: U64, package: FileAnswers, kernel: ElfLoad.Outcome,
                    regionsAddress: U64, regions: seq<Region>)
    requires Completes(g, package) && flags < FLAG_INSTALLER
    requires kernel.Loaded? && kernel.start < kernel.end && (kernel.end - kernel.start) % PAGE_SIZE == 0
    requires 0 < |regions| <= MAX_REGIONS && forall i :: 0 <= i < |regions| ==> RegionOk(regions[i])
    ensures Accepted(Completed(g, flags, package, kernel, regionsAddress, regions)) <==>
            Suitable(g, package, kernel, regionsAddress, regions)
  {
    hide RegionOk, OverlapsKernel, ValidFramebuffer, PackageAccepted, Loads, LoadFile, Missing, Sized;
    FramebufferSuits(g, package);
    PackageSuits(Completed(g, flags, package, kernel, regionsAddress, regions), flags, package);
  }

  lemma PackageSuits(info: BootInfo, flags: U64, package: FileAnswers)
    requires flags < FLAG_INSTALLER && (Missing(package) || (Loads(package) && package.size <= PACKAGE_LIMIT))
    requires info.flags == (if LoadFile(package).0.Success? then FLAG_INSTALLER else flags)
    requires info.package == LoadFile(package).1 && info.packageSize == LoadFile(package).2
    ensures PackageAccepted(info) <==>
            if Loads(package)
            then package.address != 0 && package.address % PAGE_SIZE == 0
                 && package.address + package.size <= UINT64_MAX
            else !(Sized(package) && package.pages.NotFound?)
  {
  }

  lemma KernelSpan(file: seq<Byte>, kernel: ElfLoad.Outcome)
    requires kernel.Loaded? && ElfLoad.Loadable(file, kernel.start)
    requires kernel.end == kernel.start + Elf.ImageEnd(ElfLoad.Table(file))
    ensures kernel.start < kernel.end && (kernel.end - kernel.start) % PAGE_SIZE == 0
  {
    hide ElfLoad.Loadable, Elf.ImageEnd;
    ElfLoad.ImageSpan(file, kernel.start);
  }

  /**
   Completes the record, for a loaded kernel file and the regions of a firmware
   map. The kernel accepts it exactly when the firmware's answers were suitable,
   and takes it for an installer exactly if a package was loaded.
   */
  method CompleteBootInfo(g: Graphics, flags: U64, package: FileAnswers, kernel: ElfLoad.Outcome,
                          regionsAddress: U64, regions: seq<Region>, ghost file: seq<Byte>, ghost ds: seq<Descriptor>)
    returns (info: Option<BootInfo>)
    requires flags < FLAG_INSTALLER
    requires kernel.Loaded? && ElfLoad.Loadable(file, kernel.start)
    requires kernel.end == kernel.start + Elf.ImageEnd(ElfLoad.Table(file))
    requires MapOk(ds) && regions == Regions(ds) && 0 < |regions| <= MAX_REGIONS
    ensures info.Some? <==> Completes(g, package)
    ensures info.Some? ==> (Accepted(info.value) <==> Suitable(g, package, kernel, regionsAddress, regions))
    ensures info.Some? ==>
      && info.value.flags == (if Loads(package) then FLAG_INSTALLER else flags)
      && info.value.kernelStart == kernel.start && info.value.kernelEnd == kernel.end
      && info.value.regionsAddress == regionsAddress && info.value.regions == regions
      && (Loads(package) ==> info.value.package == package.address && info.value.packageSize == package.size)
      && info.value.framebuffer == Framebuffer(g.base, g.width, g.height, g.scanLine * 4, 32, 1 - g.format)
    ensures info.Some? ==> info.value == Completed(g, flags, package, kernel, regionsAddress, regions)
  {
    hide ElfLoad.Loadable, Elf.ImageEnd, Regions, Accepted, Suitable;
    var bootFlags := flags;
    var (status, address, size) := LoadFile(package);
    if status.Success? {
      if size > PACKAGE_LIMIT {
        return None;
      }
      bootFlags := FLAG_INSTALLER;
    } else if !status.NotFound? {
      return None;
    }
    var framebuffer := PrepareFramebuffer(g);
    if framebuffer.None? {
      return None;
    }
    HandoffAccepted(g, flags, package, file, kernel, regionsAddress, ds);
    info := Some(BootInfo(BOOT_MAGIC, BOOT_VERSION, BOOT_INFO_SIZE, framebuffer.value, regionsAddress, regions,
                          kernel.start, kernel.end, bootFlags, address, size));
  }
}
