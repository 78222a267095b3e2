/**
 The tree that the directories make: chains from an inode to its parent and on, the
 searches that follow them, and what moving an entry does to them.
 */
module KuroTree {
  import opened Bytes
  import opened KuroDisk
  import opened KuroBitmap
  import opened KuroAlloc
  import opened KuroInode
  import opened KuroDirectory
  import opened KuroOwner

  // ----- Chains -----

  /** From each inode to its only parent, none but the last being the root. */
  ghost predicate IsChain(g: Geometry, crc: Checksum, d: Disk, chain: seq<U64>)
    requires g.Valid(|d|)
  {
    && chain != []
    && forall i :: 0 <= i < |chain| - 1 ==> chain[i] != ROOT && Owner(g, crc, d, chain[i], chain[i + 1])
  }

  /** A chain from x that cannot be continued: it ends at the root or at an inode nobody lists. */
  ghost predicate TopChain(g: Geometry, crc: Checksum, d: Disk, x: U64, chain: seq<U64>)
    requires g.Valid(|d|)
  {
    && IsChain(g, crc, d, chain) && chain[0] == x
    && (chain[|chain| - 1] == ROOT || Unowned(g, crc, d, chain[|chain| - 1]))
  }

  /** Following parents from x comes to an end, so x is not its own ancestor. */
  ghost predicate HasTop(g: Geometry, crc: Checksum, d: Disk, x: U64)
    requires g.Valid(|d|)
  {
    exists chain :: TopChain(g, crc, d, x, chain)
  }

  ghost predicate RootChain(g: Geometry, crc: Checksum, d: Disk, x: U64, chain: seq<U64>)
    requires g.Valid(|d|)
  {
    IsChain(g, crc, d, chain) && chain[0] == x && chain[|chain| - 1] == ROOT
  }

  lemma OwnerUnique(g: Geometry, crc: Checksum, d: Disk, c: U64, p: U64, q: U64)
    requires g.Valid(|d|) && Owner(g, crc, d, c, p) && Owner(g, crc, d, c, q)
    ensures p == q
  {
    hide Lists, Once;
  }

  lemma NotBoth(g: Geometry, crc: Checksum, d: Disk, c: U64, p: U64)
    requires g.Valid(|d|) && Owner(g, crc, d, c, p)
    ensures !Unowned(g, crc, d, c)
  {
    hide Lists, Once;
  }

  /** Two chains from the same inode agree as far as both go. */
  lemma {:induction false} ChainsAgree(g: Geometry, crc: Checksum, d: Disk, a: seq<U64>, b: seq<U64>, i: nat)
    requires g.Valid(|d|) && IsChain(g, crc, d, a) && IsChain(g, crc, d, b) && a[0] == b[0]
    requires i < |a| && i < |b|
    ensures a[i] == b[i]
    decreases i
  {
    hide Owner;
    if i > 0 {
      ChainsAgree(g, crc, d, a, b, i - 1);
      OwnerUnique(g, crc, d, a[i - 1], a[i], b[i]);
    }
  }

  lemma ChainSuffix(g: Geometry, crc: Checksum, d: Disk, chain: seq<U64>, k: nat)
    requires g.Valid(|d|) && IsChain(g, crc, d, chain) && k < |chain|
    ensures IsChain(g, crc, d, chain[k..])
  {
    hide Owner;
    var rest := chain[k..];
    forall i | 0 <= i < |rest| - 1 ensures rest[i] != ROOT && Owner(g, crc, d, rest[i], rest[i + 1]) {
      assert rest[i] == chain[k + i] && rest[i + 1] == chain[k + i + 1];
    }
  }

  lemma ChainMore(g: Geometry, crc: Checksum, d: Disk, chain: seq<U64>, p: U64)
    requires g.Valid(|d|) && IsChain(g, crc, d, chain)
    requires chain[|chain| - 1] != ROOT && Owner(g, crc, d, chain[|chain| - 1], p)
    ensures IsChain(g, crc, d, chain + [p])
  {
    hide Owner;
  }

  /** No inode is met twice on the way to the top. */
  lemma TopIsSimple(g: Geometry, crc: Checksum, d: Disk, chain: seq<U64>, i: nat, k: nat)
    requires g.Valid(|d|) && chain != [] && TopChain(g, crc, d, chain[0], chain) && i < k < |chain|
    ensures chain[i] != chain[k]
  {
    hide Owner, Unowned;
    if chain[i] == chain[k] {
      var a, b := chain[i..], chain[k..];
      ChainSuffix(g, crc, d, chain, i);
      ChainSuffix(g, crc, d, chain, k);
      var m := |b| - 1;
      ChainsAgree(g, crc, d, a, b, m);
      assert a[m] == chain[i + m] && b[m] == chain[|chain| - 1];
      assert Owner(g, crc, d, chain[i + m], chain[i + m + 1]);
      NotBoth(g, crc, d, chain[i + m], chain[i + m + 1]);
      assert false;
    }
  }

  /** A chain to the top is all there is from its first inode. */
  lemma TopIsLongest(g: Geometry, crc: Checksum, d: Disk, chain: seq<U64>, other: seq<U64>)
    requires g.Valid(|d|) && chain != [] && TopChain(g, crc, d, chain[0], chain)
    requires IsChain(g, crc, d, other) && other[0] == chain[0]
    ensures |other| <= |chain| && other == chain[..|other|]
  {
    hide Owner, Unowned;
    if |other| > |chain| {
      var m := |chain| - 1;
      ChainsAgree(g, crc, d, chain, other, m);
      assert Owner(g, crc, d, other[m], other[m + 1]);
      NotBoth(g, crc, d, other[m], other[m + 1]);
      assert false;
    }
    forall i | 0 <= i < |other| ensures other[i] == chain[i] {
      ChainsAgree(g, crc, d, chain, other, i);
    }
  }

  // ----- The length of a chain -----

  predicate Distinct(s: seq<U64>) {
    forall i, k :: 0 <= i < k < |s| ==> s[i] != s[k]
  }

  /** Different numbers from 1 to n are at most n. */
  lemma {:induction false} Pigeonhole(s: seq<U64>, n: nat)
    requires Distinct(s) && forall i :: 0 <= i < |s| ==> 0 < s[i] <= n
    ensures |s| <= n
    decreases n
  {
    if s != [] {
      assert 0 < s[0] <= n;
      if k :| 0 <= k < |s| && s[k] == n {
        var rest := s[..k] + s[k + 1..];
        forall i | 0 <= i < |rest| ensures 0 < rest[i] <= n - 1 {
          assert rest[i] == if i < k then s[i] else s[i + 1];
        }
        Pigeonhole(rest, n - 1);
      } else {
        Pigeonhole(s, n - 1);
      }
    }
  }

  lemma TopIsShort(g: Geometry, crc: Checksum, d: Disk, x: U64, chain: seq<U64>)
    requires g.Valid(|d|) && TopChain(g, crc, d, x, chain) && 0 < x <= g.inodeCount
    ensures |chain| <= g.inodeCount
  {
    hide Owner, Unowned, Lists;
    forall i, k | 0 <= i < k < |chain| ensures chain[i] != chain[k] {
      TopIsSimple(g, crc, d, chain, i, k);
    }
    forall i | 0 <= i < |chain| ensures 0 < chain[i] <= g.inodeCount {
      if i > 0 {
        assert Owner(g, crc, d, chain[i - 1], chain[i]);
        OwnerIsLive(g, crc, d, chain[i - 1], chain[i]);
      }
    }
    Pigeonhole(chain, g.inodeCount);
  }

  lemma OwnerIsLive(g: Geometry, crc: Checksum, d: Disk, c: U64, p: U64)
    requires g.Valid(|d|) && Owner(g, crc, d, c, p)
    ensures 0 < p <= g.inodeCount && InodeAt(g, crc, d, p).Success? && InodeAt(g, crc, d, p).value.kind == DIRECTORY
  {
    hide InodeAt, View, Once;
    ListerIsLive(g, crc, d, p, c);
  }

  // ----- Following a chain -----

  /** Where the way from x leads, if it leads anywhere. */
  ghost predicate Reaches(g: Geometry, crc: Checksum, d: Disk, x: U64, root: bool)
    requires g.Valid(|d|)
  {
    exists chain :: TopChain(g, crc, d, x, chain) && (root <==> chain[|chain| - 1] == ROOT)
  }

  method InodeReachesRoot(fs: FileSystem, id: U64) returns (status: Status, reaches: bool)
    requires fs.Ready() && fs.mounted
    ensures id == 0 || id > fs.geometry.inodeCount ==> status == InvalidArgument
    ensures status == Ok ==> Reaches(fs.geometry, fs.checksum, fs.device.sectors, id, reaches)
    ensures fs.device.reliable && 0 < id <= fs.geometry.inodeCount && status != Ok ==>
      id != ROOT && !(AllReadable(fs.geometry, fs.checksum, fs.device.sectors)
                      && HasTop(fs.geometry, fs.checksum, fs.device.sectors, id))
  {
    hide Owner, Unowned, AllReadable, Ambiguous, TopChain;
    reaches := false;
    if id == 0 || id > fs.geometry.inodeCount {
      return InvalidArgument, false;
    }
    ghost var chain := [id];
    if id == ROOT {
      TopEnds(fs.geometry, fs.checksum, fs.device.sectors, chain);
      return Ok, true;
    }
    var current, depth := id, 0;
    while depth < fs.geometry.inodeCount
      invariant 0 <= depth <= fs.geometry.inodeCount && |chain| == depth + 1
      invariant IsChain(fs.geometry, fs.checksum, fs.device.sectors, chain)
      invariant chain[0] == id && chain[depth] == current && current != ROOT
    {
      var parent: U64;
      status, parent := FindUniqueParent(fs, current);
      if status == NotFound {
        TopEnds(fs.geometry, fs.checksum, fs.device.sectors, chain);
        return Ok, false;
      }
      if status != Ok {
        Lost(fs.geometry, fs.checksum, fs.device.sectors, chain);
        return;
      }
      ChainMore(fs.geometry, fs.checksum, fs.device.sectors, chain, parent);
      chain := chain + [parent];
      if parent == ROOT {
        TopEnds(fs.geometry, fs.checksum, fs.device.sectors, chain);
        return Ok, true;
      }
      current := parent;
      depth := depth + 1;
    }
    TooLong(fs.geometry, fs.checksum, fs.device.sectors, chain);
    status := CorruptDirectory;
  }

  lemma TopEnds(g: Geometry, crc: Checksum, d: Disk, chain: seq<U64>)
    requires g.Valid(|d|) && IsChain(g, crc, d, chain)
    requires chain[|chain| - 1] == ROOT || Unowned(g, crc, d, chain[|chain| - 1])
    ensures TopChain(g, crc, d, chain[0], chain)
    ensures Reaches(g, crc, d, chain[0], chain[|chain| - 1] == ROOT)
  {
    hide IsChain, Unowned;
  }

  /** A chain whose next parent is ambiguous has no top. */
  lemma Lost(g: Geometry, crc: Checksum, d: Disk, chain: seq<U64>)
    requires g.Valid(|d|) && IsChain(g, crc, d, chain) && chain[|chain| - 1] != ROOT
    ensures Ambiguous(g, crc, d, chain[|chain| - 1]) ==> !(AllReadable(g, crc, d) && HasTop(g, crc, d, chain[0]))
  {
    hide Owner, Unowned, AllReadable;
    var last := |chain| - 1;
    if Ambiguous(g, crc, d, chain[last]) && AllReadable(g, crc, d) && HasTop(g, crc, d, chain[0]) {
      var top :| TopChain(g, crc, d, chain[0], top);
      TopIsLongest(g, crc, d, top, chain);
      NextIsKnown(g, crc, d, top, last);
    }
  }

  lemma NextIsKnown(g: Geometry, crc: Checksum, d: Disk, chain: seq<U64>, i: nat)
    requires g.Valid(|d|) && i < |chain| && TopChain(g, crc, d, chain[0], chain) && chain[i] != ROOT
    ensures Unowned(g, crc, d, chain[i]) || exists p: U64 :: Owner(g, crc, d, chain[i], p)
  {
    hide Owner, Unowned;
    if i < |chain| - 1 {
      assert Owner(g, crc, d, chain[i], chain[i + 1]);
    }
  }

  lemma TooLong(g: Geometry, crc: Checksum, d: Disk, chain: seq<U64>)
    requires g.Valid(|d|) && IsChain(g, crc, d, chain) && 0 < chain[0] <= g.inodeCount < |chain|
    ensures !HasTop(g, crc, d, chain[0])
  {
    hide Owner, Unowned, IsChain;
    if HasTop(g, crc, d, chain[0]) {
      var top :| TopChain(g, crc, d, chain[0], top);
      assert IsChain(g, crc, d, top) && top != [] by { TopFacts(g, crc, d, chain[0], top); }
      TopIsLongest(g, crc, d, top, chain);
      TopIsShort(g, crc, d, chain[0], top);
      assert false;
    }
  }

  lemma TopFacts(g: Geometry, crc: Checksum, d: Disk, x: U64, chain: seq<U64>)
    requires g.Valid(|d|) && TopChain(g, crc, d, x, chain)
    ensures IsChain(g, crc, d, chain) && chain != [] && chain[0] == x
  {
  }

  // ----- Cycles -----

  /** The moved directory is the destination or one of its ancestors. */
  ghost predicate Above(g: Geometry, crc: Checksum, d: Disk, moved: U64, destination: U64)
    requires g.Valid(|d|)
  {
    exists chain :: IsChain(g, crc, d, chain) && chain[0] == destination && chain[|chain| - 1] == moved
  }

  /** The destination is connected to the root by a way that does not pass the moved directory. */
  ghost predicate ClearWay(g: Geometry, crc: Checksum, d: Disk, moved: U64, destination: U64)
    requires g.Valid(|d|)
  {
    exists chain :: RootChain(g, crc, d, destination, chain) && moved !in chain
  }

  /** What the check for cycles accepts. */
  ghost predicate MayHold(g: Geometry, crc: Checksum, d: Disk, moved: U64, destination: U64)
    requires g.Valid(|d|)
  {
    && moved != ROOT && (destination == ROOT || AllReadable(g, crc, d))
    && ClearWay(g, crc, d, moved, destination)
  }

  method CreatesCycle(fs: FileSystem, moved: U64, destination: U64) returns (status: Status, cycle: bool)
    requires fs.Ready() && fs.mounted && 0 < destination <= fs.geometry.inodeCount
    ensures status == Ok && cycle ==> Above(fs.geometry, fs.checksum, fs.device.sectors, moved, destination)
    ensures status == Ok && !cycle ==> MayHold(fs.geometry, fs.checksum, fs.device.sectors, moved, destination)
    ensures fs.device.reliable && MayHold(fs.geometry, fs.checksum, fs.device.sectors, moved, destination) ==>
      status == Ok && !cycle
    ensures status != NotFound && status != WouldCreateCycle
  {
    hide Owner, Unowned, AllReadable, Ambiguous, RootChain;
    cycle := false;
    if moved == ROOT {
      return InvalidArgument, false;
    }
    ghost var chain := [destination];
    var current, depth := destination, 0;
    while depth <= fs.geometry.inodeCount
      invariant 0 <= depth <= fs.geometry.inodeCount + 1 && |chain| == depth + 1
      invariant IsChain(fs.geometry, fs.checksum, fs.device.sectors, chain)
      invariant chain[0] == destination && chain[depth] == current
      invariant moved !in chain[..depth]
      invariant depth > 0 ==> AllReadable(fs.geometry, fs.checksum, fs.device.sectors)
    {
      if current == moved {
        OnTheWay(fs.geometry, fs.checksum, fs.device.sectors, moved, chain);
        return Ok, true;
      }
      assert chain == chain[..depth] + [current];
      if current == ROOT {
        WayIsClear(fs.geometry, fs.checksum, fs.device.sectors, moved, chain);
        return Ok, false;
      }
      var parent: U64;
      status, parent := FindUniqueParent(fs, current);
      if status == NotFound {
        Astray(fs.geometry, fs.checksum, fs.device.sectors, moved, chain);
        return CorruptDirectory, false;
      }
      if status != Ok {
        Astray(fs.geometry, fs.checksum, fs.device.sectors, moved, chain);
        return;
      }
      ChainMore(fs.geometry, fs.checksum, fs.device.sectors, chain, parent);
      chain := chain + [parent];
      assert chain[..depth + 1] == chain[..depth] + [current];
      current := parent;
      depth := depth + 1;
    }
    NoWay(fs.geometry, fs.checksum, fs.device.sectors, moved, chain);
    status := CorruptDirectory;
  }

  lemma OnTheWay(g: Geometry, crc: Checksum, d: Disk, moved: U64, chain: seq<U64>)
    requires g.Valid(|d|) && IsChain(g, crc, d, chain) && chain[|chain| - 1] == moved && moved != ROOT
    ensures Above(g, crc, d, moved, chain[0]) && !ClearWay(g, crc, d, moved, chain[0])
  {
    hide Owner;
    if ClearWay(g, crc, d, moved, chain[0]) {
      var way :| RootChain(g, crc, d, chain[0], way) && moved !in way;
      RootIsTop(g, crc, d, chain[0], way);
      TopIsLongest(g, crc, d, way, chain);
    }
  }

  lemma RootIsTop(g: Geometry, crc: Checksum, d: Disk, x: U64, chain: seq<U64>)
    requires g.Valid(|d|) && RootChain(g, crc, d, x, chain)
    ensures TopChain(g, crc, d, x, chain) && HasTop(g, crc, d, x)
  {
    hide IsChain, Unowned;
  }

  lemma WayIsClear(g: Geometry, crc: Checksum, d: Disk, moved: U64, chain: seq<U64>)
    requires g.Valid(|d|) && IsChain(g, crc, d, chain) && chain[|chain| - 1] == ROOT && moved !in chain
    ensures ClearWay(g, crc, d, moved, chain[0])
  {
    hide Owner;
    assert RootChain(g, crc, d, chain[0], chain);
  }

  /** A chain that cannot go on before it meets the root leaves no way there. */
  lemma Astray(g: Geometry, crc: Checksum, d: Disk, moved: U64, chain: seq<U64>)
    requires g.Valid(|d|) && IsChain(g, crc, d, chain) && chain[|chain| - 1] != ROOT
    ensures Unowned(g, crc, d, chain[|chain| - 1]) ==> !ClearWay(g, crc, d, moved, chain[0])
    ensures Ambiguous(g, crc, d, chain[|chain| - 1]) ==> !MayHold(g, crc, d, moved, chain[0])
  {
    hide Owner, Unowned, AllReadable, Ambiguous;
    var last := |chain| - 1;
    if ClearWay(g, crc, d, moved, chain[0]) {
      var way :| RootChain(g, crc, d, chain[0], way) && moved !in way;
      RootIsTop(g, crc, d, chain[0], way);
      if Unowned(g, crc, d, chain[last]) {
        TopEnds(g, crc, d, chain);
        TopIsLongest(g, crc, d, chain, way);
        TopIsLongest(g, crc, d, way, chain);
        assert false;
      }
      Lost(g, crc, d, chain);
      AtRoot(g, crc, d, chain);
    }
  }

  lemma AtRoot(g: Geometry, crc: Checksum, d: Disk, chain: seq<U64>)
    requires g.Valid(|d|) && IsChain(g, crc, d, chain) && chain[|chain| - 1] != ROOT
    ensures chain[0] != ROOT
  {
    hide Owner;
  }

  lemma NoWay(g: Geometry, crc: Checksum, d: Disk, moved: U64, chain: seq<U64>)
    requires g.Valid(|d|) && IsChain(g, crc, d, chain) && 0 < chain[0] <= g.inodeCount < |chain|
    ensures !ClearWay(g, crc, d, moved, chain[0])
  {
    hide Owner, IsChain;
    TooLong(g, crc, d, chain);
    if ClearWay(g, crc, d, moved, chain[0]) {
      var way :| RootChain(g, crc, d, chain[0], way) && moved !in way;
      RootIsTop(g, crc, d, chain[0], way);
    }
  }
}
