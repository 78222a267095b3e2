/**
 Leaving the firmware. The firmware may change its memory map at any call, and
 does so on every allocation and release; each change makes the previous map
 key useless. The loader must hand over the map that was in force when it left.
 */
module ExitBoot {
  import opened Bytes
  import opened MemoryMap

  datatype Status = Success | BufferTooSmall | InvalidParameter | LoadError | OutOfResources | Other

  type History = map<nat, seq<Descriptor>>

  /** Every map that had a key still has it. */
  ghost predicate Kept(before: History, after: History) {
    forall k :: k in before ==> k in after && after[k] == before[k]
  }

  /** A map the loader can hand over. */
  predicate Usable(ds: seq<Descriptor>) {
    MapOk(ds) && Regions(ds) != []
  }

  /**
   The UEFI boot services the loader relies on. Keys are never reused. A
   cooperative firmware allocates whenever it is asked, keeps its map usable, adds
   at most one descriptor to it at a time, and refuses to be left only because its
   map has just changed, which it does `refusals` more times.
   */
  class Firmware {
    const cooperative: bool
    const stride: nat
    var refusals: nat
    var current: seq<Descriptor>
    var key: nat
    var nextPool: nat
    ghost var history: History
    ghost var pools: set<nat>
    ghost var exited: bool
    ghost var exits: nat

    ghost predicate Valid()
      reads this
    {
      && key in history && history[key] == current
      && (forall k :: k in history ==> k <= key)
      && (forall p :: p in pools ==> p < nextPool)
    }

    ghost predicate Steady()
      reads `current
    {
      cooperative && DESCRIPTOR_SIZE <= stride <= MAX_DESCRIPTOR_SIZE && Usable(current)
    }

    /** The map takes a new value under a new key. */
    method Change()
      requires Valid()
      modifies `current, `key, `history
      ensures Valid() && key > old(key) && Kept(old(history), history)
      ensures old(Steady()) ==> Steady() && |current| <= |old(current)| + 1
    {
      var map_: seq<Descriptor> := *;
      if cooperative && (!Usable(map_) || |map_| > |current| + 1) {
        map_ := current;
      }
      current, key := map_, key + 1;
      history := history[key := current];
    }

    /** The map may have changed behind the loader's back. */
    method Drift()
      requires Valid()
      modifies `current, `key, `history
      ensures Valid() && Kept(old(history), history)
    {
      var changes: bool := *;
      if changes {
        Change();
      }
    }

    method GetMemoryMap(capacity: nat)
      returns (status: Status, data: seq<Descriptor>, size: nat, mapKey: nat, descriptorSize: nat)
      requires Valid() && !exited
      modifies `current, `key, `history
      ensures Valid() && Kept(old(history), history)
      ensures status.Success? ==>
        && mapKey in history && data == history[mapKey]
        && descriptorSize != 0 && size % descriptorSize == 0 && size / descriptorSize == |data|
      ensures old(Steady()) ==>
        && current == old(current) && key == old(key) && descriptorSize == stride && size == |current| * stride
        && mapKey == key && status == if size > capacity then BufferTooSmall else Success
    {
      if cooperative && stride != 0 {
        SizeOfMap(|current|, stride);
        status := if |current| * stride > capacity then BufferTooSmall else Success;
        return status, current, |current| * stride, key, stride;
      }
      Drift();
      descriptorSize, size, status := *, *, *;
      mapKey, data := key, current;
      if size > capacity {
        status := BufferTooSmall;
      } else if status.Success?
                && (descriptorSize == 0 || size % descriptorSize != 0 || size / descriptorSize != |current|) {
        status := Other;
      }
    }

    method AllocatePool() returns (status: Status, pool: nat)
      requires Valid() && !exited
      modifies `current, `key, `history, `pools, `nextPool
      ensures Valid() && Kept(old(history), history)
      ensures status.Success? ==> pool !in old(pools) && pools == old(pools) + {pool}
      ensures !status.Success? ==> pools == old(pools)
      ensures old(Steady()) ==> status.Success? && Steady() && |current| <= |old(current)| + 1
    {
      Change();
      pool := nextPool;
      status := *;
      if cooperative {
        status := Success;
      }
      if status.Success? {
        pools := pools + {pool};
        nextPool := nextPool + 1;
      }
    }

    method FreePool(pool: nat)
      requires Valid() && !exited && pool in pools
      modifies `current, `key, `history, `pools
      ensures Valid() && Kept(old(history), history)
      ensures pools == old(pools) - {pool}
      ensures old(Steady()) ==> Steady() && |current| <= |old(current)| + 1
    {
      Change();
      pools := pools - {pool};
    }

    /** Ends the firmware's services if the key is the one of the map in force. */
    method ExitBootServices(mapKey: nat) returns (status: Status)
      requires Valid() && !exited
      modifies `current, `key, `history, `exited, `exits, `refusals
      ensures Valid() && Kept(old(history), history) && exits == old(exits) + 1
      ensures status.Success? <==> exited
      ensures status.Success? ==> mapKey == key
      ensures old(Steady()) && old(refusals) == 0 && mapKey == old(key) ==> status.Success?
      ensures old(Steady()) && old(refusals) != 0 ==>
        status == InvalidParameter && refusals == old(refusals) - 1 && Steady() && |current| <= |old(current)| + 1
    {
      status := *;
      if cooperative && refusals != 0 {
        Change();
        refusals, status := refusals - 1, InvalidParameter;
      } else if cooperative {
        status := Success;
      } else {
        Drift();
      }
      exits := exits + 1;
      if mapKey != key && status.Success? {
        status := InvalidParameter;
      }
      exited := status.Success?;
    }
  }

  lemma SizeOfMap(count: nat, stride: nat)
    requires stride != 0
    ensures count * stride % stride == 0 && count * stride / stride == count
  {
    var n := count * stride;
    var q := n / stride;
    assert n % stride == (count - q) * stride;
    if count > q {
      Scaled(1, count - q, stride);
    }
  }

  lemma Scaled(a: nat, b: nat, stride: nat)
    requires a <= b
    ensures a * stride <= b * stride
  {
  }

  /** The two buffers of one allocation round. */
  datatype Buffers = Buffers(capacity: nat, rawPool: nat, regionsPool: nat)

  /** The loader holds exactly the buffers beyond what it held before. */
  ghost predicate Holds(fw: Firmware, b: Buffers, before: set<nat>)
    reads fw
  {
    && b.rawPool != b.regionsPool && b.rawPool !in before && b.regionsPool !in before
    && fw.pools == before + {b.rawPool, b.regionsPool}
  }

  /** A map of so many descriptors fits the buffers. */
  ghost predicate Roomy(descriptors: nat, stride: nat, b: Buffers, regions: nat) {
    descriptors * stride <= b.capacity && descriptors <= regions
  }

  lemma RoomyDown(few: nat, many: nat, stride: nat, b: Buffers, regions: nat)
    requires few <= many && Roomy(many, stride, b, regions)
    ensures Roomy(few, stride, b, regions)
  {
    Scaled(few, many, stride);
  }

  lemma Grown(ds: seq<Descriptor>, stride: nat, required: nat, slack: nat)
    requires Usable(ds) && |ds| + 64 <= MAX_REGIONS && 0 < stride <= MAX_DESCRIPTOR_SIZE
    requires required == |ds| * stride && slack == stride * 64
    ensures 0 < required && required + slack == (|ds| + 64) * stride <= UINT64_MAX
    ensures (required + slack) / stride == |ds| + 64
  {
    Scaled(1, |ds|, stride);
    Scaled(|ds| + 64, MAX_REGIONS, stride);
    SizeOfMap(|ds| + 64, stride);
  }

  method AllocateMapBuffers(fw: Firmware) returns (status: Status, buffers: Buffers, regions: array<Region>)
    requires fw.Valid() && !fw.exited
    modifies fw`current, fw`key, fw`history, fw`pools, fw`nextPool
    ensures fw.Valid() && Kept(old(fw.history), fw.history) && fresh(regions)
    ensures status.Success? ==> Holds(fw, buffers, old(fw.pools)) && regions.Length <= MAX_REGIONS
    ensures !status.Success? ==> fw.pools == old(fw.pools)
    ensures old(fw.Steady()) && |old(fw.current)| + 128 <= MAX_REGIONS ==>
      && status.Success? && fw.Steady() && |fw.current| <= |old(fw.current)| + 2
      && Roomy(|old(fw.current)| + 64, fw.stride, buffers, regions.Length)
  {
    hide Usable, fw.Valid;
    var data, required, mapKey, descriptorSize;
    buffers := Buffers(0, 0, 0);
    regions := new Region[0];
    status, data, required, mapKey, descriptorSize := fw.GetMemoryMap(0);
    ghost var steady := old(fw.Steady()) && |old(fw.current)| + 128 <= MAX_REGIONS;
    if steady {
      Grown(fw.current, descriptorSize, required, descriptorSize * 64);
    }
    if status != BufferTooSmall || descriptorSize < DESCRIPTOR_SIZE || descriptorSize > MAX_DESCRIPTOR_SIZE {
      return LoadError, buffers, regions;
    }
    var slack := descriptorSize * 64;
    if required > UINT64_MAX - slack {
      return OutOfResources, buffers, regions;
    }
    var capacity := required + slack;
    var rawPool;
    status, rawPool := fw.AllocatePool();
    if !status.Success? {
      return;
    }
    var regionCapacity := capacity / descriptorSize + 64;
    if regionCapacity > MAX_REGIONS {
      fw.FreePool(rawPool);
      return OutOfResources, buffers, regions;
    }
    var regionsPool;
    status, regionsPool := fw.AllocatePool();
    if !status.Success? {
      fw.FreePool(rawPool);
      return;
    }
    buffers := Buffers(capacity, rawPool, regionsPool);
    regions := new Region[regionCapacity](_ => Region(0, 0, 0, 0, 0));
  }

  method ReleaseBuffers(fw: Firmware, buffers: Buffers, ghost before: set<nat>)
    requires fw.Valid() && !fw.exited && Holds(fw, buffers, before)
    modifies fw`current, fw`key, fw`history, fw`pools
    ensures fw.Valid() && fw.pools == before
    ensures old(fw.Steady()) ==> fw.Steady() && |fw.current| <= |old(fw.current)| + 2
  {
    fw.FreePool(buffers.regionsPool);
    fw.FreePool(buffers.rawPool);
  }

  /** The handed-over regions are those of the nonempty descriptors of the map in force, in order. */
  ghost predicate HandedOver(fw: Firmware, regions: seq<Region>)
    reads fw
  {
    && fw.exited && MapOk(fw.current) && 0 < |regions| <= MAX_REGIONS
    && Normalizes(fw.current, regions) && regions == Regions(fw.current)
  }

  /** What one attempt decided: leave with success, leave with an error, try again, or get larger buffers. */
  datatype Attempt = Left | Aborted(error: Status) | Retry | TooSmall

  lemma UsableFits(ds: seq<Descriptor>, stride: nat, b: Buffers, regions: nat, raw: Raw)
    requires Usable(ds) && DESCRIPTOR_SIZE <= stride <= MAX_DESCRIPTOR_SIZE && Roomy(|ds|, stride, b, regions)
    requires raw == Raw(ds, b.capacity, |ds| * stride, stride)
    ensures raw.WellSized() && raw.size / raw.descriptorSize == |ds| && raw.Read() == ds
    ensures MapOk(ds) && 0 < |Regions(ds)| <= regions
  {
    SizeOfMap(|ds|, stride);
  }

  method TryExit(fw: Firmware, buffers: Buffers, regions: array<Region>)
    returns (attempt: Attempt, count: nat)
    requires fw.Valid() && !fw.exited && regions.Length <= MAX_REGIONS
    modifies fw`current, fw`key, fw`history, fw`exited, fw`exits, fw`refusals, regions
    ensures fw.Valid() && fw.exits <= old(fw.exits) + 1
    ensures attempt.Left? <==> fw.exited
    ensures attempt.Left? ==> count <= regions.Length && HandedOver(fw, regions[..count])
    ensures attempt.Aborted? ==> !attempt.error.Success?
    ensures old(fw.Steady()) && Roomy(|old(fw.current)|, fw.stride, buffers, regions.Length) ==>
      && (old(fw.refusals) == 0 ==> attempt.Left?)
      && (old(fw.refusals) != 0 ==>
        attempt.Retry? && fw.refusals == old(fw.refusals) - 1 && fw.Steady() && |fw.current| <= |old(fw.current)| + 1)
  {
    hide MapOk, Regions, Normalizes, Usable;
    ghost var steady := fw.Steady() && Roomy(|fw.current|, fw.stride, buffers, regions.Length);
    hide Roomy;
    var status, data, size, mapKey, descriptorSize := fw.GetMemoryMap(buffers.capacity);
    count := 0;
    if steady {
      UsableFits(fw.current, fw.stride, buffers, regions.Length, Raw(data, buffers.capacity, size, descriptorSize));
    }
    if status == BufferTooSmall {
      return TooSmall, 0;
    }
    if !status.Success? {
      return Aborted(status), 0;
    }
    if descriptorSize < DESCRIPTOR_SIZE || descriptorSize > MAX_DESCRIPTOR_SIZE {
      return Aborted(LoadError), 0;
    }
    var raw := Raw(data, buffers.capacity, size, descriptorSize);
    var ok;
    ok, count := NormalizeMemoryMap(raw, regions);
    if !ok {
      return Aborted(LoadError), 0;
    }
    assert raw.Read() == data;
    status := fw.ExitBootServices(mapKey);
    if status.Success? {
      attempt := Left;
    } else if status != InvalidParameter {
      attempt := Aborted(status);
    } else {
      attempt := Retry;
    }
  }

  /** Up to eight attempts with the same buffers. */
  method TryExits(fw: Firmware, buffers: Buffers, regions: array<Region>)
    returns (attempt: Attempt, count: nat)
    requires fw.Valid() && !fw.exited && regions.Length <= MAX_REGIONS
    modifies fw`current, fw`key, fw`history, fw`exited, fw`exits, fw`refusals, regions
    ensures fw.Valid() && fw.exits <= old(fw.exits) + 8
    ensures attempt.Left? <==> fw.exited
    ensures attempt.Left? ==> count <= regions.Length && HandedOver(fw, regions[..count])
    ensures attempt.Aborted? ==> !attempt.error.Success?
    ensures old(fw.Steady()) && Roomy(|old(fw.current)| + 8, fw.stride, buffers, regions.Length) ==>
      && (old(fw.refusals) < 8 ==> attempt.Left?)
      && (old(fw.refusals) >= 8 ==>
        attempt.Retry? && fw.refusals == old(fw.refusals) - 8 && fw.Steady() && |fw.current| <= |old(fw.current)| + 8)
  {
    hide HandedOver, Usable, Roomy;
    ghost var steady := fw.Steady() && Roomy(|fw.current| + 8, fw.stride, buffers, regions.Length);
    attempt, count := Retry, 0;
    var tries := 0;
    while tries < 8 && attempt.Retry?
      invariant 0 <= tries <= 8 && fw.Valid() && fw.exits <= old(fw.exits) + tries
      invariant attempt.Left? <==> fw.exited
      invariant attempt.Left? ==> count <= regions.Length && HandedOver(fw, regions[..count])
      invariant attempt.Aborted? ==> !attempt.error.Success?
      invariant steady ==> attempt.Left? || (attempt.Retry? && fw.refusals == old(fw.refusals) - tries && fw.Steady())
      invariant steady && attempt.Left? ==> old(fw.refusals) < tries
      invariant steady && attempt.Retry? ==> |fw.current| <= |old(fw.current)| + tries
      modifies fw`current, fw`key, fw`history, fw`exited, fw`exits, fw`refusals, regions
    {
      if steady {
        RoomyDown(|fw.current|, |old(fw.current)| + 8, fw.stride, buffers, regions.Length);
      }
      attempt, count := TryExit(fw, buffers, regions);
      tries := tries + 1;
    }
  }

  /**
   Leaves the firmware with the regions of the map in force at that moment, or
   fails with every buffer released, after at most 64 exit calls. A cooperative
   firmware is left exactly when it refuses fewer than 64 stale keys.
   */
  method LeaveFirmware(fw: Firmware) returns (status: Status, handed: seq<Region>)
    requires fw.Valid() && !fw.exited
    modifies fw
    ensures fw.Valid() && fw.exits <= old(fw.exits) + 64
    ensures status.Success? <==> fw.exited
    ensures status.Success? ==> HandedOver(fw, handed)
    ensures status.Success? ==> exists b :: Holds(fw, b, old(fw.pools))
    ensures !status.Success? ==> fw.pools == old(fw.pools)
    ensures old(fw.Steady()) && |old(fw.current)| + 212 <= MAX_REGIONS ==> (status.Success? <==> old(fw.refusals) < 64)
  {
    hide HandedOver, Usable, Roomy;
    ghost var steady := fw.Steady() && |fw.current| + 212 <= MAX_REGIONS;
    ghost var before := fw.pools;
    handed := [];
    var round := 0;
    while round < 8
      invariant 0 <= round <= 8 && fw.Valid() && !fw.exited && fw.pools == before
      invariant fw.exits <= old(fw.exits) + 8 * round
      invariant steady ==> fw.Steady() && |fw.current| <= |old(fw.current)| + 12 * round
      invariant steady ==> fw.refusals == old(fw.refusals) - 8 * round
    {
      var buffers, regions;
      ghost var size := |fw.current|;
      status, buffers, regions := AllocateMapBuffers(fw);
      if !status.Success? {
        return;
      }
      if steady {
        RoomyDown(|fw.current| + 8, size + 64, fw.stride, buffers, regions.Length);
      }
      var attempt, count := TryExits(fw, buffers, regions);
      if attempt.Left? {
        assert Holds(fw, buffers, old(fw.pools));
        return Success, regions[..count];
      }
      ReleaseBuffers(fw, buffers, before);
      if attempt.Aborted? {
        return attempt.error, [];
      }
      round := round + 1;
    }
    status := OutOfResources;
  }
}
