/** Directories as the search sees them: what has been added is found. */
module FatLookup {
  import opened Bytes
  import opened FatChain
  import opened FatGeometry
  import opened FatImage
  import opened FatVolume
  import opened FatDirectory

  /** The walk goes over clusters of the volume up to number `n`, the search meets no match in the
      first `n`, and then it stops: at the end of the chain or at an end mark. */
  ghost predicate StopsAt(g: Layout, disk: Disk, fat: Fat, dir: nat, n: nat, wanted: DirEntry -> bool)
    requires |disk| == g.blocks
  {
    && Passes(g, disk, fat, dir, n, wanted)
    && (IsChain(fat, dir, Prefix(fat, dir, n)) || (ClusterIn(g, Walk(fat, dir, n)) && EndsIn(g, disk, Walk(fat, dir, n), wanted)))
  }

  lemma StopsSomewhere(g: Layout, disk: Disk, fat: Fat, dir: nat, wanted: DirEntry -> bool) returns (n: nat)
    requires |disk| == g.blocks && Absent(g, disk, fat, dir, wanted)
    ensures StopsAt(g, disk, fat, dir, n, wanted)
  {
    hide IsChain, EndsIn, Passes;
    n :| Passes(g, disk, fat, dir, n, wanted)
      && (IsChain(fat, dir, Prefix(fat, dir, n)) || (ClusterIn(g, Walk(fat, dir, n)) && EndsIn(g, disk, Walk(fat, dir, n), wanted)));
  }

  /** A cluster without a free slot has no end mark. */
  lemma FullHasNoEnd(g: Layout, disk: Disk, c: nat, wanted: DirEntry -> bool)
    requires |disk| == g.blocks && ClusterIn(g, c) && FullCluster(g, disk, c)
    ensures !EndsIn(g, disk, c, wanted)
  {
    forall k: nat, j: nat | k < g.sectorsPerCluster && j < 16
      ensures !EndsAt(g, disk, c, k, j, wanted)
    {
      assert FullSector(disk[DataLba(g, c, k)]);
      assert !IsFreeSlot(disk[DataLba(g, c, k)], j);
    }
  }

  /** A chain has no cluster after its last. */
  lemma ChainStops(g: Layout, fat: Fat, dir: nat, n: nat)
    requires FatOk(fat) && |fat| == g.clusterCount + 2 && IsChain(fat, dir, Prefix(fat, dir, n))
    ensures n > 0 && !ClusterIn(g, Walk(fat, dir, n))
  {
    assert Prefix(fat, dir, n)[n - 1] == Walk(fat, dir, n - 1);
  }

  /** The search goes at least over the clusters that are full. */
  lemma StopsAfterFull(g: Layout, disk: Disk, fat: Fat, dir: nat, n: nat, t: nat, wanted: DirEntry -> bool)
    requires |disk| == g.blocks && FatOk(fat) && |fat| == g.clusterCount + 2
    requires StopsAt(g, disk, fat, dir, n, wanted) && FullTo(g, disk, fat, dir, t)
    ensures t <= n
  {
    hide IsChain, Prefix, FullCluster, EndsIn, MissesSectors;
    if n < t {
      assert ClusterIn(g, Walk(fat, dir, n)) && FullCluster(g, disk, Walk(fat, dir, n));
      FullHasNoEnd(g, disk, Walk(fat, dir, n), wanted);
      ChainStops(g, fat, dir, n);
    }
  }

  /** Sectors of a cluster that did not change hold what they held. */
  lemma SameCluster(g: Layout, before: Disk, after: Disk, c: nat, wanted: DirEntry -> bool)
    requires |before| == |after| == g.blocks && ClusterIn(g, c) && MissesSectors(g, before, c, g.sectorsPerCluster, wanted)
    requires forall k {:trigger DataLba(g, c, k)} :: 0 <= k < g.sectorsPerCluster ==> after[DataLba(g, c, k)] == before[DataLba(g, c, k)]
    ensures MissesSectors(g, after, c, g.sectorsPerCluster, wanted)
  {
  }

  lemma OtherCluster(g: Layout, before: Disk, after: Disk, c: nat, d: nat)
    requires |before| == g.blocks && ClusterIn(g, c) && ClusterIn(g, d) && c != d && SameDataBut(g, before, after, d)
    ensures forall k {:trigger DataLba(g, c, k)} :: 0 <= k < g.sectorsPerCluster ==> after[DataLba(g, c, k)] == before[DataLba(g, c, k)]
  {
    forall k {:trigger DataLba(g, c, k)} | 0 <= k < g.sectorsPerCluster
      ensures after[DataLba(g, c, k)] == before[DataLba(g, c, k)]
    {
      ClusterAddress(g, c, k);
      ClustersDisjoint(g, c, d, DataLba(g, c, k));
    }
  }

  /** In the cluster that gets the entry, the search meets no match before the first free slot. */
  lemma MissesBefore(g: Layout, disk: Disk, fat: Fat, dir: nat, n: nat, t: nat, k: nat, j: nat, wanted: DirEntry -> bool)
    requires |disk| == g.blocks && FatOk(fat) && |fat| == g.clusterCount + 2 && StopsAt(g, disk, fat, dir, n, wanted)
    requires t <= n && ClusterIn(g, Walk(fat, dir, t)) && k < g.sectorsPerCluster && j < 16
    requires forall m {:trigger DataLba(g, Walk(fat, dir, t), m)} :: 0 <= m < k ==> FullSector(disk[DataLba(g, Walk(fat, dir, t), m)])
    requires forall i :: 0 <= i < j ==> !IsFreeSlot(disk[DataLba(g, Walk(fat, dir, t), k)], i)
    ensures MissesSectors(g, disk, Walk(fat, dir, t), k, wanted) && Misses(disk[DataLba(g, Walk(fat, dir, t), k)], j, wanted)
  {
    hide IsChain, Prefix, IsValidEntry;
    var c := Walk(fat, dir, t);
    if t < n {
      assert MissesSectors(g, disk, c, g.sectorsPerCluster, wanted);
      assert Misses(disk[DataLba(g, c, k)], 16, wanted);
    } else {
      if IsChain(fat, dir, Prefix(fat, dir, n)) {
        ChainStops(g, fat, dir, n);
      }
      var k': nat, j': nat :| k' < g.sectorsPerCluster && j' < 16 && EndsAt(g, disk, c, k', j', wanted);
      assert IsFreeSlot(disk[DataLba(g, c, k')], j');
      forall m | 0 <= m < k
        ensures !IsFreeSlot(disk[DataLba(g, c, m)], j')
      {
        assert FullSector(disk[DataLba(g, c, m)]);
      }
      if k < k' {
        assert Misses(disk[DataLba(g, c, k)], 16, wanted);
      }
    }
  }

  /** The entry put into slot `j` of a sector is there, and the slots before it are as they were. */
  lemma PlacedEntry(s: Sector, j: nat, e: DirEntry, wanted: DirEntry -> bool)
    requires j < 16 && Misses(s, j, wanted)
    ensures EntryAt(Placed(s, j, e), j) == e && Misses(Placed(s, j, e), j, wanted)
  {
    forall i | 0 <= i < j
      ensures Placed(s, j, e)[32 * i] == s[32 * i] && EntryAt(Placed(s, j, e), i) == EntryAt(s, i)
    {
      assert Placed(s, j, e)[..32 * j] == s[..32 * j];
      assert EntryAt(Placed(s, j, e), i) == Placed(s, j, e)[..32 * j][32 * i..32 * i + 32];
      assert EntryAt(s, i) == s[..32 * j][32 * i..32 * i + 32];
    }
  }

  /** An entry put into the first free slot of a directory without a match is the first match. */
  lemma PlacedIsFound(g: Layout, before: Disk, after: Disk, fat: Fat, dir: nat, t: nat, e: DirEntry, n: nat, wanted: DirEntry -> bool)
    requires |before| == g.blocks && FatOk(fat) && |fat| == g.clusterCount + 2 && StopsAt(g, before, fat, dir, n, wanted)
    requires InPlace(g, before, after, fat, dir, t, e) && IsValidEntry(e) && wanted(e)
    ensures |after| == g.blocks && Finds(g, after, fat, dir, wanted, e)
  {
    hide IsChain, Prefix, Placed, IsValidEntry, EntryAt, Misses, StopsAt;
    var c := Walk(fat, dir, t);
    StopsAfterFull(g, before, fat, dir, n, t, wanted);
    var k: nat, j: nat :| k < g.sectorsPerCluster && j < 16 && PlacedAt(g, before, after, c, e, k, j);
    MissesBefore(g, before, fat, dir, n, t, k, j, wanted);
    PlacedEntry(before[DataLba(g, c, k)], j, e, wanted);
    SectorsApart(g, c, k);
    EarlierPass(g, before, after, fat, dir, t, c, n, wanted, k);
    assert FirstMatch(g, after, fat, dir, wanted, c, k, j);
  }

  lemma SectorsApart(g: Layout, c: nat, k: nat)
    requires ClusterIn(g, c) && k < g.sectorsPerCluster
    ensures forall m {:trigger DataLba(g, c, m)} :: 0 <= m < g.sectorsPerCluster && m != k ==> DataLba(g, c, m) != DataLba(g, c, k)
  {
  }

  /** The clusters before the one that changed are passed over as before. */
  lemma EarlierPass(g: Layout, before: Disk, after: Disk, fat: Fat, dir: nat, t: nat, c: nat, n: nat, wanted: DirEntry -> bool, k: nat)
    requires |before| == g.blocks && StopsAt(g, before, fat, dir, n, wanted) && t <= n && FullTo(g, before, fat, dir, t)
    requires ClusterIn(g, c) && k < g.sectorsPerCluster && !FullSector(before[DataLba(g, c, k)])
    requires |after| == g.blocks && forall lba :: 0 <= lba < g.blocks && lba != DataLba(g, c, k) ==> after[lba] == before[lba]
    ensures Passes(g, after, fat, dir, t, wanted)
  {
    hide IsChain, Prefix, EndsIn, FullSector, Misses;
    ClusterAddress(g, c, k);
    forall i | 0 <= i < t
      ensures ClusterIn(g, Walk(fat, dir, i)) && MissesSectors(g, after, Walk(fat, dir, i), g.sectorsPerCluster, wanted)
    {
      var d := Walk(fat, dir, i);
      assert ClusterIn(g, d) && FullCluster(g, before, d) && d != c;
      assert SameDataBut(g, before, after, c);
      OtherCluster(g, before, after, d, c);
      SameCluster(g, before, after, d, wanted);
    }
  }

  // ---- A new cluster ----

  /** The walk over a full directory to its last cluster `t`, after a free cluster has been hung on it. */
  lemma ExtendedWalk(g: Layout, fat: Fat, fat': Fat, dir: nat, t: nat, c: nat, i: nat)
    requires FatOk(fat) && |fat| == g.clusterCount + 2 && ClusterIn(g, c) && fat[c] == FREE && i <= t
    requires ClusterIn(g, Walk(fat, dir, t)) && forall j :: 0 <= j <= t ==> ClusterIn(g, Walk(fat, dir, j))
    requires fat[Walk(fat, dir, t)] >= EOC_MIN && fat' == fat[c := EOC_MAX][Walk(fat, dir, t) := c]
    ensures Walk(fat', dir, i) == Walk(fat, dir, i) != c
    ensures i < t ==> Walk(fat, dir, i) != Walk(fat, dir, t)
    ensures i == t ==> Walk(fat', dir, t + 1) == c
    decreases i
  {
    assert i < t ==> Walk(fat, dir, i + 1) == fat[Walk(fat, dir, i)];
    if i > 0 {
      ExtendedWalk(g, fat, fat', dir, t, c, i - 1);
    }
  }

  /** The entry in a new cluster behind a full directory without a match is the first match. */
  lemma NewIsFound(g: Layout, before: Disk, after: Disk, raw: seq<nat>, raw': seq<nat>, dir: nat, t: nat, c: nat, e: DirEntry, n: nat,
                   wanted: DirEntry -> bool)
    requires |before| == g.blocks && |raw| == g.fatSectors * 128 && FatOk(FatOf(g, raw)) && StopsAt(g, before, FatOf(g, raw), dir, n, wanted)
    requires InNew(g, before, after, raw, raw', dir, t, c, e) && IsValidEntry(e) && wanted(e)
    ensures |after| == g.blocks && |raw'| == g.fatSectors * 128 && Finds(g, after, FatOf(g, raw'), dir, wanted, e)
  {
    hide IsChain, Prefix, IsValidEntry, FullCluster, EndsIn, Misses, FatOk;
    var fat := FatOf(g, raw);
    var tail := Walk(fat, dir, t);
    StopsAfterFull(g, before, fat, dir, n, t + 1, wanted);
    StoredFat(g, raw, c, EOC_MAX);
    StoredFat(g, Stored(raw, c, EOC_MAX), tail, c);
    LastLink(fat, dir, tail);
    var fat' := FatOf(g, raw');
    forall i | 0 <= i < t + 1
      ensures ClusterIn(g, Walk(fat', dir, i)) && MissesSectors(g, after, Walk(fat', dir, i), g.sectorsPerCluster, wanted)
    {
      ExtendedWalk(g, fat, fat', dir, t, c, i);
      OtherCluster(g, before, after, Walk(fat, dir, i), c);
      SameCluster(g, before, after, Walk(fat, dir, i), wanted);
    }
    ExtendedWalk(g, fat, fat', dir, t, c, t);
    assert Passes(g, after, fat', dir, t + 1, wanted) && c == Walk(fat', dir, t + 1);
    NewSlot(e, wanted);
    assert FirstMatch(g, after, fat', dir, wanted, c, 0, 0);
  }

  lemma LastLink(fat: Fat, dir: nat, tail: nat)
    requires LastOf(fat, dir, tail)
    ensures ValidCluster(fat, tail) && fat[tail] >= EOC_MIN
  {
  }

  lemma NewSlot(e: DirEntry, wanted: DirEntry -> bool)
    ensures EntryAt(OnlyEntry(e), 0) == e && Misses(OnlyEntry(e), 0, wanted)
  {
  }

  /** What has been added to a directory without a match is what the search finds next. */
  lemma AddedIsFound(g: Layout, before: Disk, after: Disk, raw: seq<nat>, raw': seq<nat>, dir: nat, e: DirEntry, wanted: DirEntry -> bool)
    requires |before| == g.blocks && |raw| == g.fatSectors * 128 && Absent(g, before, FatOf(g, raw), dir, wanted)
    requires EntryAdded(g, before, after, raw, raw', dir, e) && IsValidEntry(e) && wanted(e)
    ensures |after| == g.blocks && |raw'| == g.fatSectors * 128 && Finds(g, after, FatOf(g, raw'), dir, wanted, e)
  {
    hide IsValidEntry, InPlace, InNew, StopsAt, Absent, FatOf, Finds;
    var fat := FatOf(g, raw);
    FatOfOk(g, raw);
    var n := StopsSomewhere(g, before, fat, dir, wanted);
    if raw' == raw && exists t: nat :: InPlace(g, before, after, fat, dir, t, e) {
      var t: nat :| InPlace(g, before, after, fat, dir, t, e);
      PlacedIsFound(g, before, after, fat, dir, t, e, n, wanted);
    } else {
      var t: nat, c: nat :| InNew(g, before, after, raw, raw', dir, t, c, e);
      NewIsFound(g, before, after, raw, raw', dir, t, c, e, n, wanted);
    }
  }

  // ---- mkdir ----

  /** Making a chain of the free cluster `own` does not change the walk over a well-formed chain. */
  lemma OwnApart(fat: Fat, dir: nat, chain: seq<nat>, own: nat, i: nat)
    requires IsChain(fat, dir, chain) && ValidCluster(fat, own) && fat[own] == FREE && i <= |chain|
    ensures Walk(fat[own := EOC_MAX], dir, i) == Walk(fat, dir, i)
    ensures i < |chain| ==> Walk(fat, dir, i) == chain[i] != own
    ensures i == |chain| ==> Walk(fat, dir, i) >= EOC_MIN
  {
    if i > 0 {
      OwnApart(fat, dir, chain, own, i - 1);
    }
    if i < |chain| - 1 {
      assert fat[chain[i]] == chain[i + 1] && ValidCluster(fat, chain[i + 1]);
    }
  }

  /** A directory without a match still has none when another, free cluster has been filled. */
  lemma StillAbsent(g: Layout, before: Disk, mid: Disk, raw: seq<nat>, dir: nat, own: nat, chain: seq<nat>, wanted: DirEntry -> bool)
    requires |before| == |mid| == g.blocks && |raw| == g.fatSectors * 128 && ClusterIn(g, own) && FatOf(g, raw)[own] == FREE
    requires Absent(g, before, FatOf(g, raw), dir, wanted) && IsChain(FatOf(g, raw), dir, chain) && SameDataBut(g, before, mid, own)
    ensures Absent(g, mid, FatOf(g, Stored(raw, own, EOC_MAX)), dir, wanted)
  {
    hide Absent, FatOf, StopsAt;
    var fat := FatOf(g, raw);
    FatOfOk(g, raw);
    StoredFat(g, raw, own, EOC_MAX);
    var n := StopsSomewhere(g, before, fat, dir, wanted);
    StillStops(g, before, mid, fat, dir, own, chain, n, wanted);
    StopIsAbsent(g, mid, FatOf(g, Stored(raw, own, EOC_MAX)), dir, n, wanted);
  }

  lemma StopIsAbsent(g: Layout, disk: Disk, fat: Fat, dir: nat, n: nat, wanted: DirEntry -> bool)
    requires |disk| == g.blocks && StopsAt(g, disk, fat, dir, n, wanted)
    ensures Absent(g, disk, fat, dir, wanted)
  {
    hide IsChain, EndsIn, Passes;
  }

  lemma StillStops(g: Layout, before: Disk, mid: Disk, fat: Fat, dir: nat, own: nat, chain: seq<nat>, n: nat, wanted: DirEntry -> bool)
    requires |before| == |mid| == g.blocks && FatOk(fat) && |fat| == g.clusterCount + 2 && ClusterIn(g, own) && fat[own] == FREE
    requires StopsAt(g, before, fat, dir, n, wanted) && IsChain(fat, dir, chain) && SameDataBut(g, before, mid, own)
    ensures StopsAt(g, mid, fat[own := EOC_MAX], dir, n, wanted)
  {
    hide MissesSectors, EndsIn, IsChain, SameDataBut;
    var fat' := fat[own := EOC_MAX];
    StopsOnChain(g, before, fat, dir, n, chain, wanted);
    forall i | 0 <= i < n
      ensures ClusterIn(g, Walk(fat', dir, i)) && MissesSectors(g, mid, Walk(fat', dir, i), g.sectorsPerCluster, wanted)
    {
      OwnApart(fat, dir, chain, own, i);
      OtherCluster(g, before, mid, Walk(fat, dir, i), own);
      SameCluster(g, before, mid, Walk(fat, dir, i), wanted);
    }
    OwnApart(fat, dir, chain, own, n);
    if n == |chain| {
      SamePrefix(fat, fat', dir, chain, own);
    } else {
      OtherCluster(g, before, mid, Walk(fat, dir, n), own);
      SameEnd(g, before, mid, Walk(fat, dir, n), wanted);
    }
  }

  lemma StopsOnChain(g: Layout, disk: Disk, fat: Fat, dir: nat, n: nat, chain: seq<nat>, wanted: DirEntry -> bool)
    requires |disk| == g.blocks && FatOk(fat) && |fat| == g.clusterCount + 2 && StopsAt(g, disk, fat, dir, n, wanted) && IsChain(fat, dir, chain)
    ensures n <= |chain| && (n < |chain| ==> ClusterIn(g, Walk(fat, dir, n)) && EndsIn(g, disk, Walk(fat, dir, n), wanted))
  {
    hide EndsIn, MissesSectors;
    ChainIsWalk(fat, dir, chain, |chain| - 1);
    assert Walk(fat, dir, |chain|) == fat[chain[|chain| - 1]] >= EOC_MIN;
    assert n > |chain| ==> ClusterIn(g, Walk(fat, dir, |chain|));
    if IsChain(fat, dir, Prefix(fat, dir, n)) {
      ChainUnique(fat, dir, chain, Prefix(fat, dir, n));
    }
  }

  lemma SamePrefix(fat: Fat, fat': Fat, dir: nat, chain: seq<nat>, own: nat)
    requires IsChain(fat, dir, chain) && ValidCluster(fat, own) && fat[own] == FREE && fat' == fat[own := EOC_MAX]
    ensures IsChain(fat', dir, Prefix(fat', dir, |chain|))
  {
    forall i | 0 <= i < |chain|
      ensures Prefix(fat', dir, |chain|)[i] == chain[i] != own
    {
      OwnApart(fat, dir, chain, own, i);
    }
  }

  lemma SameEnd(g: Layout, before: Disk, mid: Disk, c: nat, wanted: DirEntry -> bool)
    requires |before| == |mid| == g.blocks && ClusterIn(g, c) && EndsIn(g, before, c, wanted)
    requires forall k {:trigger DataLba(g, c, k)} :: 0 <= k < g.sectorsPerCluster ==> mid[DataLba(g, c, k)] == before[DataLba(g, c, k)]
    ensures EndsIn(g, mid, c, wanted)
  {
    var k: nat, j: nat :| k < g.sectorsPerCluster && j < 16 && EndsAt(g, before, c, k, j, wanted);
    assert EndsAt(g, mid, c, k, j, wanted);
  }

  /** After `mkdir` in a directory with a well-formed chain, a search for the name finds the new directory. */
  lemma MadeIsFound(g: Layout, before: Disk, after: Disk, raw: seq<nat>, raw': seq<nat>, parent: nat, name: seq<Byte>, own: nat,
                    chain: seq<nat>, wanted: DirEntry -> bool)
    requires |before| == g.blocks && |raw| == g.fatSectors * 128 && |name| == 11 && parent < U32
    requires DirectoryMade(g, before, after, raw, raw', parent, name, own) && Absent(g, before, FatOf(g, raw), parent, wanted)
    requires IsChain(FatOf(g, raw), parent, chain) && name[0] != 0 && name[0] != DELETED && wanted(MakeEntry(name, ATTR_DIRECTORY, own))
    ensures |after| == g.blocks && |raw'| == g.fatSectors * 128
    ensures Finds(g, after, FatOf(g, raw'), parent, wanted, MakeEntry(name, ATTR_DIRECTORY, own))
    ensures ClusterOf(MakeEntry(name, ATTR_DIRECTORY, own)) == own && IsDirectory(MakeEntry(name, ATTR_DIRECTORY, own))
  {
    hide FatOf, Absent, EntryAdded, Finds, IsChain, DotSector, ClusterOf, MakeEntry;
    var e := MakeEntry(name, ATTR_DIRECTORY, own);
    assert e[0] == e[..11][0] == name[0];
    var mid: Disk :| |mid| == g.blocks && NewSectors(g, before, mid, own, DotSector(own, if parent == g.root then 0 else parent))
      && EntryAdded(g, mid, after, Stored(raw, own, EOC_MAX), raw', parent, e);
    StillAbsent(g, before, mid, raw, parent, own, chain, wanted);
    AddedIsFound(g, mid, after, Stored(raw, own, EOC_MAX), raw', parent, e, wanted);
  }
}
