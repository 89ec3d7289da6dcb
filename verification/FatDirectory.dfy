/** Directory operations of the FAT32 driver, with what each failure leaves in the FAT. */
module FatDirectory {
  import opened Errors
  import opened Bytes
  import opened FatChain
  import opened FatGeometry
  import opened FatImage
  import opened FatVolume

  // ---- Directory entries: 32 bytes, sixteen to a sector ----

  type DirEntry = e: seq<Byte> | |e| == 32 witness seq(32, _ => 0)

  const ATTR_DIRECTORY := 0x10
  const ATTR_ARCHIVE := 0x20
  const DELETED := 0xE5

  /** A new entry for a chain that starts at `cluster`; `name` is the 11-byte short name. */
  function MakeEntry(name: seq<Byte>, attr: Byte, cluster: nat): (e: DirEntry)
    requires |name| == 11 && cluster < U32
    ensures ClusterOf(e) == cluster && e[11] == attr && e[..11] == name
  {
    Digits(cluster);
    name + [attr] + seq(8, _ => 0) + [cluster / 0x1_0000 % 0x100, cluster / 0x100_0000] + seq(4, _ => 0)
    + [cluster % 0x100, cluster / 0x100 % 0x100] + seq(4, _ => 0)
  }

  /** The first cluster an entry names, from its two 16-bit halves. */
  function ClusterOf(e: DirEntry): nat {
    LittleEndian(e[26], e[27], e[20], e[21])
  }

  /** The 32 bytes at `o` are a directory entry of the Microsoft FAT specification: the name first, the attributes at 11,
      the high half of the first cluster at 20 and the low half at 26, and zeros. */
  ghost predicate EntryBytes(s: seq<Byte>, o: nat, name: seq<Byte>, attr: nat, cluster: nat)
    requires o + 32 <= |s|
  {
    && s[o..o + 11] == name && s[o + 11] == attr && 0x1_0000 * Le(s, o + 20, 2) + Le(s, o + 26, 2) == cluster
    && forall i :: o + 12 <= i < o + 32 && i !in {o + 20, o + 21, o + 26, o + 27} ==> s[i] == 0
  }

  lemma EntryWritten(name: seq<Byte>, attr: Byte, cluster: nat)
    requires |name| == 11 && cluster < U32
    ensures EntryBytes(MakeEntry(name, attr, cluster), 0, name, attr, cluster)
  {
    hide Le;
    var e := MakeEntry(name, attr, cluster);
    ClusterRead(e);
    assert e[0..0 + 11] == name;
  }

  /** The first cluster is read from the same places. */
  lemma ClusterRead(e: DirEntry)
    ensures ClusterOf(e) == 0x1_0000 * Le(e, 20, 2) + Le(e, 26, 2)
  {
    hide Le, LittleEndian;
    LeWritten(e, 20);
    LeWritten(e, 26);
    Halves(e[26], e[27], e[20], e[21]);
  }

  lemma Halves(b0: nat, b1: nat, b2: nat, b3: nat)
    ensures LittleEndian(b0, b1, b2, b3) == 0x1_0000 * LittleEndian(b2, b3, 0, 0) + LittleEndian(b0, b1, 0, 0)
  {
  }

  /** The attribute bits that matter: 0x10 marks a directory, 0x08 a volume label or a part of a long name. */
  lemma AttributeBits(e: DirEntry)
    ensures IsDirectory(e) <==> (e[11] as bv8) & 0x10 != 0
    ensures IsValidEntry(e) <==> e[0] != 0x00 && e[0] != 0xE5 && (e[11] as bv8) & 0x08 == 0
    ensures (e[11] as bv8) & 0x0F == 0x0F ==> !IsValidEntry(e)
  {
    Bits(e[11]);
  }

  lemma Bits(x: Byte)
    ensures (x as bv8) & 0x10 != 0 <==> (x / 0x10) % 2 == 1
    ensures (x as bv8) & 0x08 == 0 <==> (x / 8) % 2 == 0
    ensures (x as bv8) & 0x0F == 0x0F ==> (x as bv8) & 0x08 != 0
  {
  }

  function EntryAt(s: Sector, j: nat): DirEntry
    requires j < 16
  {
    s[32 * j..32 * j + 32]
  }

  predicate IsFreeSlot(s: Sector, j: nat)
    requires j < 16
  {
    s[32 * j] == 0 || s[32 * j] == DELETED
  }

  /** The sector with `e` in slot `j`; the slot after a former end mark becomes the new end mark. */
  function Placed(s: Sector, j: nat, e: DirEntry): Sector
    requires j < 16
  {
    if s[32 * j] == 0 && j + 1 < 16
    then s[..32 * j] + e + seq(32, _ => 0) + s[32 * j + 64..]
    else s[..32 * j] + e + s[32 * j + 32..]
  }

  /** `e` was put into the first free slot of sector `k` of cluster `c`, the first sector of
      the cluster that has one. */
  ghost predicate PlacedIn(g: Layout, before: Disk, after: Disk, c: nat, e: DirEntry)
    requires ClusterIn(g, c) && |before| == g.blocks
  {
    exists k: nat, j: nat :: k < g.sectorsPerCluster && j < 16 && PlacedAt(g, before, after, c, e, k, j)
  }

  ghost predicate PlacedAt(g: Layout, before: Disk, after: Disk, c: nat, e: DirEntry, k: nat, j: nat)
    requires ClusterIn(g, c) && |before| == g.blocks && k < g.sectorsPerCluster && j < 16
  {
    FirstFreeAt(g, before, c, k, j) && after == before[DataLba(g, c, k) := Placed(before[DataLba(g, c, k)], j, e)]
  }

  /** The first free slot of cluster `c` is slot `j` of its sector `k`. */
  ghost predicate FirstFreeAt(g: Layout, disk: Disk, c: nat, k: nat, j: nat)
    requires ClusterIn(g, c) && |disk| == g.blocks && k < g.sectorsPerCluster && j < 16
  {
    && IsFreeSlot(disk[DataLba(g, c, k)], j)
    && (forall i :: 0 <= i < j ==> !IsFreeSlot(disk[DataLba(g, c, k)], i))
    && (forall m {:trigger DataLba(g, c, m)} :: 0 <= m < k ==> FullSector(disk[DataLba(g, c, m)]))
  }

  /** A write to the sector with the first free slot of cluster `c` failed: that sector may hold anything. */
  ghost predicate TriedIn(g: Layout, before: Disk, after: Disk, c: nat)
    requires ClusterIn(g, c) && |before| == g.blocks
  {
    exists k: nat, j: nat :: k < g.sectorsPerCluster && j < 16 && FirstFreeAt(g, before, c, k, j) && SameBut(before, after, DataLba(g, c, k))
  }

  ghost predicate SameBut(before: Disk, after: Disk, lba: nat) {
    |after| == |before| && forall x :: 0 <= x < |before| && x != lba ==> after[x] == before[x]
  }

  ghost predicate FullSector(s: Sector) {
    forall i :: 0 <= i < 16 ==> !IsFreeSlot(s, i)
  }

  ghost predicate FullCluster(g: Layout, disk: Disk, c: nat)
    requires ClusterIn(g, c) && |disk| == g.blocks
  {
    forall m {:trigger DataLba(g, c, m)} :: 0 <= m < g.sectorsPerCluster ==> FullSector(disk[DataLba(g, c, m)])
  }

  /** The first `n` clusters of the directory have no free slot. */
  ghost predicate FullTo(g: Layout, disk: Disk, fat: Fat, dir: nat, n: nat)
    requires |disk| == g.blocks
  {
    forall i :: 0 <= i < n ==> ClusterIn(g, Walk(fat, dir, i)) && FullCluster(g, disk, Walk(fat, dir, i))
  }

  /** Cluster `c` holds `first` and then zeros, and the other data is as it was. */
  ghost predicate NewSectors(g: Layout, before: Disk, after: Disk, c: nat, first: Sector)
    requires ClusterIn(g, c) && |before| == g.blocks
  {
    && SameDataBut(g, before, after, c) && after[DataLba(g, c, 0)] == first
    && forall k {:trigger DataLba(g, c, k)} :: 1 <= k < g.sectorsPerCluster ==> after[DataLba(g, c, k)] == seq(512, _ => 0)
  }

  /** A sector with `e` in its first slot and nothing else. */
  function OnlyEntry(e: DirEntry): Sector {
    e + seq(480, _ => 0)
  }

  // ---- Adding an entry ----

  /** The slot search of `add_dir_entry` in one cluster. */
  method TryCluster(fs: FatInfo, c: nat, e: DirEntry) returns (err: Error, done: bool)
    requires fs.Clean() && ClusterIn(fs.g, c)
    modifies fs.dev
    ensures Blamed(old(fs.dev.tally), fs.dev.tally, fs.lost, err)
    ensures fs.Clean()
    ensures SameDataBut(fs.g, old(fs.dev.sectors), fs.dev.sectors, c)
    ensures !done ==> fs.dev.sectors == old(fs.dev.sectors)
    ensures done && err == NoError ==> PlacedIn(fs.g, old(fs.dev.sectors), fs.dev.sectors, c, e)
    ensures done && err != NoError ==> TriedIn(fs.g, old(fs.dev.sectors), fs.dev.sectors, c)
    ensures !done && err == NoError ==> FullCluster(fs.g, fs.dev.sectors, c)
    ensures err in {NoError, Io}
  {
    hide Represents, Placed;
    ghost var before := fs.dev.sectors;
    for i := 0 to fs.g.sectorsPerCluster
      invariant fs.Clean() && fs.dev.sectors == before && fs.dev.tally == old(fs.dev.tally)
      invariant forall m {:trigger DataLba(fs.g, c, m)} :: 0 <= m < i ==> FullSector(before[DataLba(fs.g, c, m)])
    {
      ClusterAddress(fs.g, c, i);
      var sector;
      err, sector := fs.dev.Read(DataLba32(fs.g, c, i));
      if err != NoError {
        return Io, false;
      }
      for j := 0 to 16
        invariant forall k :: 0 <= k < j ==> !IsFreeSlot(sector, k)
      {
        if IsFreeSlot(sector, j) {
          err := fs.dev.Write(DataLba32(fs.g, c, i), Placed(sector, j, e));
          DataChangeKeeps(fs.g, before, fs.dev.sectors, fs.buffer, fs.bufferSector, false, fs.entries);
          assert FirstFreeAt(fs.g, before, c, i, j) && SameBut(before, fs.dev.sectors, DataLba(fs.g, c, i));
          if err == NoError {
            assert fs.dev.sectors == before[DataLba(fs.g, c, i) := Placed(sector, j, e)];
            assert PlacedAt(fs.g, before, fs.dev.sectors, c, e, i, j);
          }
          return err, true;
        }
      }
    }
    return NoError, false;
  }

  /** The FAT after a directory whose last cluster is `tail` has been extended by `c`. */
  function Extended(raw: seq<nat>, tail: nat, c: nat): seq<nat>
    requires tail < |raw| && c < |raw|
  {
    Stored(Stored(raw, c, EOC_MAX), tail, c)
  }

  /** The entry is in the new cluster `c`, and the link to it from `tail` may have been made. */
  ghost predicate LinkTried(g: Layout, before: Disk, after: Disk, raw: seq<nat>, raw': seq<nat>, lost: bool, tail: nat, c: nat, e: DirEntry)
    requires |before| == g.blocks && |raw| == g.fatSectors * 128 && ClusterIn(g, tail)
  {
    && ClusterIn(g, c) && FatOf(g, raw)[c] == FREE && NewSectors(g, before, after, c, OnlyEntry(e))
    && (!lost ==> raw' == Stored(raw, c, EOC_MAX) || raw' == Extended(raw, tail, c))
  }

  /** The end of `add_dir_entry`: put the entry into a new cluster and hang it on the chain. */
  method Extend(fs: FatInfo, tail: nat, next: nat, e: DirEntry) returns (err: Error, mayExist: bool, ghost c: nat)
    requires fs.Clean() && ClusterIn(fs.g, tail) && fs.Links()[tail] == next >= EOC_MIN
    modifies fs, fs.dev
    ensures BlamedTwice(old(fs.dev.tally), fs.dev.tally, fs.lost, err)
    ensures err == NoError ==> fs.Clean() && ClusterIn(fs.g, c) && old(fs.Links())[c] == FREE
                               && fs.entries == Extended(old(fs.entries), tail, c)
                               && NewSectors(fs.g, old(fs.dev.sectors), fs.dev.sectors, c, OnlyEntry(e))
    ensures !fs.lost && err != NoError && !mayExist ==> fs.Clean() && fs.entries == old(fs.entries)
    ensures err != NoError && !mayExist ==> SameFreeData(fs.g, old(fs.Links()), old(fs.dev.sectors), fs.dev.sectors)
    ensures err != NoError && !mayExist && fs.dev.tally.missed == old(fs.dev.tally).missed ==>
              fs.Kept() && OnlyLeaks(fs.g, old(fs.entries), fs.entries)
    ensures mayExist ==> err == Io && Failures(old(fs.dev.tally), fs.dev.tally) >= 2
    ensures mayExist ==> LinkTried(fs.g, old(fs.dev.sectors), fs.dev.sectors, old(fs.entries), fs.entries, fs.lost, tail, c, e)
    ensures err in {NoError, Full, Io} && (err == Full ==> forall x: nat :: ClusterIn(fs.g, x) ==> old(fs.Links())[x] != FREE)
  {
    hide Represents, FatOf, Stored, OnlyEntry, OnlyLeaks, SameFreeData;
    c := 0;
    ghost var raw, before := fs.entries, fs.dev.sectors;
    var r := fs.AllocCluster();
    if r.Failure? {
      return r.error, false, c;
    }
    c := r.value;
    ExtensionUndone(fs.g, raw, tail, c, next);
    OneLeak(fs.g, raw, c);
    err := fs.WriteSectors(r.value, OnlyEntry(e), 0, 1);
    if err == NoError {
      err := fs.WriteSectors(r.value, seq(512, _ => 0), 1, fs.g.sectorsPerCluster - 1);
    }
    if err != NoError {
      fs.Rollback(r.value);
      OnlyFree(fs.g, old(fs.Links()), before, fs.dev.sectors, c);
      return err, false, c;
    }
    err := fs.WriteEntry(tail, r.value);
    if err != NoError && !fs.lost {
      var cleanup := fs.WriteEntry(tail, next);
      if cleanup == NoError {
        fs.Rollback(r.value);
      } else {
        return err, true, c;
      }
    }
    OnlyFree(fs.g, old(fs.Links()), before, fs.dev.sectors, c);
    mayExist := false;
  }

  lemma SameAtAll(g: Layout, fat: Fat, disk: Disk)
    requires |disk| == g.blocks && |fat| == g.clusterCount + 2
    ensures SameFreeData(g, fat, disk, disk)
  {
  }

  /** If only a free cluster changed, only free clusters did. */
  lemma OnlyFree(g: Layout, fat: Fat, before: Disk, after: Disk, c: nat)
    requires ClusterIn(g, c) && |before| == g.blocks && |fat| == g.clusterCount + 2 && fat[c] == FREE && SameDataBut(g, before, after, c)
    ensures SameFreeData(g, fat, before, after)
  {
  }

  /** Hanging a freshly allocated cluster on a chain can be undone by restoring the old end
      mark and freeing the cluster, whatever the two words' top bits are. */
  lemma ExtensionUndone(g: Layout, raw: seq<nat>, tail: nat, c: nat, next: nat)
    requires |raw| == g.fatSectors * 128 && ClusterIn(g, tail) && ClusterIn(g, c)
    requires FatOf(g, raw)[c] == FREE && FatOf(g, raw)[tail] == next >= EOC_MIN
    ensures FatOf(g, Stored(raw, c, EOC_MAX))[c] == EOC_MAX
    ensures Stored(Stored(raw, c, EOC_MAX), c, FREE) == raw
    ensures Stored(Extended(raw, tail, c), tail, next) == Stored(raw, c, EOC_MAX)
  {
    StoredFat(g, raw, c, EOC_MAX);
    StoredTwice(g, raw, c, EOC_MAX);
    MergeParts(raw[tail], c);
  }

  /** `tail` is the last cluster of the chain from `dir`. */
  ghost predicate LastOf(fat: Fat, dir: nat, tail: nat) {
    exists chain :: IsChain(fat, dir, chain) && chain[|chain| - 1] == tail
  }

  /** What `add_dir_entry` did to the FAT when it succeeded: nothing, or an extension of the
      directory by one free cluster. */
  ghost predicate AddEffect(g: Layout, before: seq<nat>, after: seq<nat>, dir: nat)
    requires |before| == g.fatSectors * 128
  {
    || after == before
    || exists tail: nat, c: nat :: ClusterIn(g, tail) && ClusterIn(g, c) && AddedTo(g, before, after, dir, tail, c)
  }

  ghost predicate AddedTo(g: Layout, before: seq<nat>, after: seq<nat>, dir: nat, tail: nat, c: nat)
    requires |before| == g.fatSectors * 128 && ClusterIn(g, tail) && ClusterIn(g, c)
  {
    LastOf(FatOf(g, before), dir, tail) && FatOf(g, before)[c] == FREE && after == Extended(before, tail, c)
  }

  /** `e` is in the first free slot of the directory, in its cluster number `t`. */
  ghost predicate InPlace(g: Layout, before: Disk, after: Disk, fat: Fat, dir: nat, t: nat, e: DirEntry)
    requires |before| == g.blocks
  {
    && FullTo(g, before, fat, dir, t) && ClusterIn(g, Walk(fat, dir, t))
    && PlacedIn(g, before, after, Walk(fat, dir, t), e)
  }

  /** The directory was full up to its last cluster, number `t`, and `e` is in the new cluster `c` after it. */
  ghost predicate InNew(g: Layout, before: Disk, after: Disk, raw: seq<nat>, raw': seq<nat>, dir: nat, t: nat, c: nat, e: DirEntry)
    requires |before| == g.blocks && |raw| == g.fatSectors * 128
  {
    var fat := FatOf(g, raw);
    && FullTo(g, before, fat, dir, t + 1) && ClusterIn(g, Walk(fat, dir, t)) && ClusterIn(g, c)
    && AddedTo(g, raw, raw', dir, Walk(fat, dir, t), c) && NewSectors(g, before, after, c, OnlyEntry(e))
  }

  /** `e` has been added to the directory: into its first free slot if it has one, else into a new cluster. */
  ghost predicate EntryAdded(g: Layout, before: Disk, after: Disk, raw: seq<nat>, raw': seq<nat>, dir: nat, e: DirEntry)
    requires |before| == g.blocks && |raw| == g.fatSectors * 128
  {
    || (raw' == raw && exists t: nat :: InPlace(g, before, after, FatOf(g, raw), dir, t, e))
    || exists t: nat, c: nat :: InNew(g, before, after, raw, raw', dir, t, c, e)
  }

  /** The entry may or may not be in the directory: a write of it to the first free slot failed, or it is
      in a new cluster, the link to that may have been made, and the undoing of the link failed as well. */
  ghost predicate EntryTried(g: Layout, before: Disk, after: Disk, raw: seq<nat>, raw': seq<nat>, lost: bool, failed: int, dir: nat, e: DirEntry)
    requires |before| == g.blocks && |raw| == g.fatSectors * 128
  {
    || (raw' == raw && !lost && exists t: nat :: TriedInPlace(g, before, after, FatOf(g, raw), dir, t))
    || exists t: nat, c: nat :: TriedInNew(g, before, after, raw, raw', lost, failed, dir, t, c, e)
  }

  ghost predicate TriedInPlace(g: Layout, before: Disk, after: Disk, fat: Fat, dir: nat, t: nat)
    requires |before| == g.blocks
  {
    FullTo(g, before, fat, dir, t) && ClusterIn(g, Walk(fat, dir, t)) && TriedIn(g, before, after, Walk(fat, dir, t))
  }

  ghost predicate TriedInNew(g: Layout, before: Disk, after: Disk, raw: seq<nat>, raw': seq<nat>,
                             lost: bool, failed: int, dir: nat, t: nat, c: nat, e: DirEntry)
    requires |before| == g.blocks && |raw| == g.fatSectors * 128
  {
    var fat := FatOf(g, raw);
    && 2 <= failed && FullTo(g, before, fat, dir, t + 1) && ClusterIn(g, Walk(fat, dir, t)) && LastOf(fat, dir, Walk(fat, dir, t))
    && LinkTried(g, before, after, raw, raw', lost, Walk(fat, dir, t), c, e)
  }

  method AddDirEntry(fs: FatInfo, dir: nat, e: DirEntry) returns (err: Error, mayExist: bool)
    requires fs.Clean()
    modifies fs, fs.dev
    ensures BlamedTwice(old(fs.dev.tally), fs.dev.tally, fs.lost, err)
    ensures err == NoError ==> EntryAdded(fs.g, old(fs.dev.sectors), fs.dev.sectors, old(fs.entries), fs.entries, dir, e)
    ensures err in {NoError, Full, BadFs, Io} && (err == Full ==> forall x: nat :: ClusterIn(fs.g, x) ==> old(fs.Links())[x] != FREE)
    ensures err == BadFs ==> forall any :: !IsChain(old(fs.Links()), dir, any)
    ensures err == NoError ==> fs.Clean() && AddEffect(fs.g, old(fs.entries), fs.entries, dir)
    ensures !fs.lost && err != NoError && !mayExist ==> fs.Clean() && fs.entries == old(fs.entries)
    ensures err != NoError && !mayExist ==> SameFreeData(fs.g, old(fs.Links()), old(fs.dev.sectors), fs.dev.sectors)
    ensures err != NoError && !mayExist && fs.dev.tally.missed == old(fs.dev.tally).missed ==>
              fs.Kept() && OnlyLeaks(fs.g, old(fs.entries), fs.entries)
    ensures err != NoError && mayExist ==> err == Io
    ensures err != NoError && mayExist ==>
              EntryTried(fs.g, old(fs.dev.sectors), fs.dev.sectors, old(fs.entries), fs.entries, fs.lost, Failures(old(fs.dev.tally), fs.dev.tally), dir, e)
  {
    hide Represents, Yields, After, Call, Next, IsChain, FatOf, FatOk, Walk, Extended, LastOf, PlacedIn, NewSectors, FullCluster, SameFreeData,
      TriedIn, LinkTried, GeometryOk, SameDataBut, OnlyLeaks, Blamed, BlamedTwice;
    ghost var fat := fs.Links();
    SameAtAll(fs.g, fat, fs.dev.sectors);
    NoLeak(fs.g, fs.entries);
    var w := Start(dir);
    ghost var t := 0;
    Begin(fat, dir);
    while true
      invariant fs.Clean() && fs.entries == old(fs.entries) && fs.dev.sectors == old(fs.dev.sectors) && fs.dev.tally == old(fs.dev.tally)
      invariant t > 0 ==> ClusterIn(fs.g, Walk(fat, dir, t - 1)) && fat[Walk(fat, dir, t - 1)] < EOC_MIN
      invariant FullTo(fs.g, fs.dev.sectors, fat, dir, t)
      invariant Yields(fat, dir, t) && w == After(fat, dir, t)
      decreases fs.g.clusterCount - t
    {
      Advance(fat, dir, t);
      var r;
      r, w := fs.NextCluster(w);
      BlamedAnyway(old(fs.dev.tally), fs.dev.tally, fs.lost, if r.Failure? then r.error else NoError);
      if r.Failure? {
        return r.error, false;
      }
      if r.value == 0 {
        EndIsLast(fat, dir, t);
        assert false;
      }
      YieldIsLast(fat, dir, t);
      var done;
      err, done := TryCluster(fs, r.value, e);
      BlamedAnyway(old(fs.dev.tally), fs.dev.tally, fs.lost, err);
      if done {
        assert err == NoError ==> InPlace(fs.g, old(fs.dev.sectors), fs.dev.sectors, fat, dir, t, e);
        assert err != NoError ==> TriedInPlace(fs.g, old(fs.dev.sectors), fs.dev.sectors, fat, dir, t);
        return err, true;
      }
      if err != NoError {
        return err, false;
      }
      var next := fs.ReadEntry(r.value);
      BlamedAnyway(old(fs.dev.tally), fs.dev.tally, fs.lost, if next.Failure? then next.error else NoError);
      if next.Failure? {
        return next.error, false;
      }
      if next.value >= EOC_MIN {
        ghost var c;
        err, mayExist, c := Extend(fs, r.value, next.value, e);
        assert err == NoError ==> AddedTo(fs.g, old(fs.entries), fs.entries, dir, r.value, c);
        assert err == NoError ==> InNew(fs.g, old(fs.dev.sectors), fs.dev.sectors, old(fs.entries), fs.entries, dir, t, c, e);
        assert mayExist ==> TriedInNew(fs.g, old(fs.dev.sectors), fs.dev.sectors, old(fs.entries), fs.entries, fs.lost,
                                       Failures(old(fs.dev.tally), fs.dev.tally), dir, t, c, e);
        return;
      }
      t := t + 1;
    }
  }

  /** A chain ends at a cluster with an end mark. */
  lemma EndIsLast(fat: Fat, dir: nat, t: nat)
    requires FatOk(fat) && Yields(fat, dir, t) && Call(fat, dir, t).End?
    ensures t > 0 && ValidCluster(fat, Walk(fat, dir, t - 1)) && fat[Walk(fat, dir, t - 1)] >= EOC_MIN
  {
    EndMeansChain(fat, dir, t);
    assert Prefix(fat, dir, t)[t - 1] == Walk(fat, dir, t - 1);
  }

  /** A cluster that is free is on no chain, so a chain does not depend on it. */
  lemma ChainAvoidsFree(fat: Fat, s: nat, chain: seq<nat>, c: nat, v: nat)
    requires IsChain(fat, s, chain) && ValidCluster(fat, c) && fat[c] == FREE
    ensures IsChain(fat[c := v], s, chain)
  {
    forall i | 0 <= i < |chain|
      ensures chain[i] != c
    {
      assert i < |chain| - 1 ==> ValidCluster(fat, chain[i + 1]);
    }
  }

  /** A yielded cluster with an end mark is the last of a well-formed chain. */
  lemma YieldIsLast(fat: Fat, dir: nat, t: nat)
    requires FatOk(fat) && Yields(fat, dir, t) && Call(fat, dir, t).Yield?
    ensures ValidCluster(fat, Call(fat, dir, t).cluster)
    ensures Call(fat, dir, t).cluster == Walk(fat, dir, t)
    ensures fat[Call(fat, dir, t).cluster] >= EOC_MIN ==> LastOf(fat, dir, Call(fat, dir, t).cluster)
  {
    hide Next;
    var c := Call(fat, dir, t).cluster;
    YieldsAreTheWalk(fat, dir, t + 1);
    if fat[c] >= EOC_MIN {
      EndMeansChain(fat, dir, t + 1);
      var k := Reaches(fat, dir, t + 1);
      NextFrom(fat, dir, After(fat, dir, t + 1), t + 1, k);
      assert Prefix(fat, dir, t + 1)[t] == c;
    }
  }

  // ---- Looking entries up ----

  predicate IsValidEntry(e: DirEntry) {
    e[0] != 0 && e[0] != DELETED && (e[11] / 8) % 2 == 0
  }

  predicate IsDirectory(e: DirEntry) {
    (e[11] / 0x10) % 2 == 1
  }

  /** Slots 0 to j - 1 hold no end mark and no entry that is looked for. */
  ghost predicate Misses(s: Sector, j: nat, wanted: DirEntry -> bool)
    requires j <= 16
  {
    forall i :: 0 <= i < j ==> s[32 * i] != 0 && !(IsValidEntry(EntryAt(s, i)) && wanted(EntryAt(s, i)))
  }

  /** The first `k` sectors of cluster `c` hold no end mark and no entry that is looked for. */
  ghost predicate MissesSectors(g: Layout, disk: Disk, c: nat, k: nat, wanted: DirEntry -> bool)
    requires |disk| == g.blocks && ClusterIn(g, c) && k <= g.sectorsPerCluster
  {
    forall m {:trigger DataLba(g, c, m)} :: 0 <= m < k ==> Misses(disk[DataLba(g, c, m)], 16, wanted)
  }

  /** The end mark in slot `j` of sector `k` of cluster `c` comes before any match in the cluster. */
  ghost predicate EndsAt(g: Layout, disk: Disk, c: nat, k: nat, j: nat, wanted: DirEntry -> bool)
    requires |disk| == g.blocks && ClusterIn(g, c) && k < g.sectorsPerCluster && j < 16
  {
    && MissesSectors(g, disk, c, k, wanted)
    && Misses(disk[DataLba(g, c, k)], j, wanted) && disk[DataLba(g, c, k)][32 * j] == 0
  }

  ghost predicate EndsIn(g: Layout, disk: Disk, c: nat, wanted: DirEntry -> bool)
    requires |disk| == g.blocks && ClusterIn(g, c)
  {
    exists k: nat, j: nat :: k < g.sectorsPerCluster && j < 16 && EndsAt(g, disk, c, k, j, wanted)
  }

  /** Search one cluster; `stop` reports an end mark before any match. */
  method LocateIn(fs: FatInfo, c: nat, wanted: DirEntry -> bool)
    returns (err: Error, found: bool, stop: bool, k: nat, j: nat, sector: Sector)
    requires fs.Clean() && ClusterIn(fs.g, c)
    modifies fs.dev`script, fs.dev`tally
    ensures Blamed(old(fs.dev.tally), fs.dev.tally, fs.lost, err)
    ensures fs.Clean() && err in {NoError, Io}
    ensures err == NoError && found ==>
              && k < fs.g.sectorsPerCluster && j < 16
              && MissesSectors(fs.g, fs.dev.sectors, c, k, wanted) && Misses(sector, j, wanted)
              && sector == fs.dev.sectors[DataLba(fs.g, c, k)]
              && IsValidEntry(EntryAt(sector, j)) && wanted(EntryAt(sector, j))
    ensures err == NoError && !found ==>
              if stop then EndsIn(fs.g, fs.dev.sectors, c, wanted)
              else MissesSectors(fs.g, fs.dev.sectors, c, fs.g.sectorsPerCluster, wanted)
  {
    hide Represents, IsValidEntry;
    k, j, sector := 0, 0, seq(512, _ => 0);
    while k < fs.g.sectorsPerCluster
      invariant fs.Clean() && k <= fs.g.sectorsPerCluster && fs.dev.tally == old(fs.dev.tally)
      invariant MissesSectors(fs.g, fs.dev.sectors, c, k, wanted)
    {
      ClusterAddress(fs.g, c, k);
      err, sector := fs.dev.Read(DataLba32(fs.g, c, k));
      if err != NoError {
        return Io, false, false, k, j, sector;
      }
      j := 0;
      while j < 16
        invariant j <= 16 && Misses(sector, j, wanted)
      {
        var e := EntryAt(sector, j);
        if e[0] == 0 {
          assert EndsAt(fs.g, fs.dev.sectors, c, k, j, wanted);
          return NoError, false, true, k, j, sector;
        }
        if IsValidEntry(e) && wanted(e) {
          return NoError, true, false, k, j, sector;
        }
        j := j + 1;
      }
      k := k + 1;
    }
    return NoError, false, false, k, j, sector;
  }

  /** The search of the directory that starts at `dir` passes over the first `n` clusters of
      its chain without a match. */
  ghost predicate Passes(g: Layout, disk: Disk, fat: Fat, dir: nat, n: nat, wanted: DirEntry -> bool)
    requires |disk| == g.blocks
  {
    forall i :: 0 <= i < n ==> ClusterIn(g, Walk(fat, dir, i)) && MissesSectors(g, disk, Walk(fat, dir, i), g.sectorsPerCluster, wanted)
  }

  /** The directory has no matching entry before its end mark or the end of its chain. */
  ghost predicate Absent(g: Layout, disk: Disk, fat: Fat, dir: nat, wanted: DirEntry -> bool)
    requires |disk| == g.blocks
  {
    exists n: nat :: Passes(g, disk, fat, dir, n, wanted)
      && (IsChain(fat, dir, Prefix(fat, dir, n))
          || (ClusterIn(g, Walk(fat, dir, n)) && EndsIn(g, disk, Walk(fat, dir, n), wanted)))
  }

  /** The entry in slot `j` of sector `k` of cluster `c` is the first match of the directory. */
  ghost predicate FirstMatch(g: Layout, disk: Disk, fat: Fat, dir: nat, wanted: DirEntry -> bool, c: nat, k: nat, j: nat)
    requires |disk| == g.blocks && ClusterIn(g, c) && k < g.sectorsPerCluster && j < 16
  {
    var sector := disk[DataLba(g, c, k)];
    && (exists n: nat :: Passes(g, disk, fat, dir, n, wanted) && c == Walk(fat, dir, n))
    && MissesSectors(g, disk, c, k, wanted) && Misses(sector, j, wanted)
    && IsValidEntry(EntryAt(sector, j)) && wanted(EntryAt(sector, j))
  }

  /** `find_entry`: the place of the first matching entry in the directory that starts at `dir`. */
  method Locate(fs: FatInfo, dir: nat, wanted: DirEntry -> bool)
    returns (err: Error, c: nat, k: nat, j: nat, sector: Sector)
    requires fs.Clean()
    modifies fs`buffer, fs`bufferSector, fs`lost, fs.dev`script, fs.dev`tally
    ensures Blamed(old(fs.dev.tally), fs.dev.tally, fs.lost, err)
    ensures !fs.lost ==> fs.Clean()
    ensures fs.lost ==> err == Io
    ensures err in {NoError, NotFound, BadFs, Io} && (err == BadFs ==> forall any :: !IsChain(fs.Links(), dir, any))
    ensures err == NoError ==>
              && ClusterIn(fs.g, c) && k < fs.g.sectorsPerCluster && j < 16
              && sector == fs.dev.sectors[DataLba(fs.g, c, k)]
              && FirstMatch(fs.g, fs.dev.sectors, fs.Links(), dir, wanted, c, k, j)
    ensures err == NotFound ==> Absent(fs.g, fs.dev.sectors, fs.Links(), dir, wanted)
  {
    hide Represents, Yields, After, Call, Next, IsChain, FatOf, FatOk, Walk, MissesSectors, Misses, EndsIn, IsValidEntry, GeometryOk, LastOf;
    ghost var fat := fs.Links();
    var w := Start(dir);
    ghost var t := 0;
    Begin(fat, dir);
    c, k, j, sector := 0, 0, 0, seq(512, _ => 0);
    while true
      invariant fs.Clean() && fs.dev.tally == old(fs.dev.tally)
      invariant Yields(fat, dir, t) && w == After(fat, dir, t)
      invariant Passes(fs.g, fs.dev.sectors, fat, dir, t, wanted)
      decreases fs.g.clusterCount - t
    {
      Advance(fat, dir, t);
      EndIsChain(fat, dir, t);
      var r;
      r, w := fs.NextCluster(w);
      if r.Failure? {
        return r.error, c, k, j, sector;
      }
      if r.value == 0 {
        return NotFound, c, k, j, sector;
      }
      YieldIsLast(fat, dir, t);
      c := r.value;
      var found, stop;
      err, found, stop, k, j, sector := LocateIn(fs, c, wanted);
      if err != NoError || found {
        return;
      }
      if stop {
        return NotFound, c, k, j, sector;
      }
      t := t + 1;
    }
  }

  lemma EndIsChain(fat: Fat, dir: nat, t: nat)
    requires FatOk(fat) && Yields(fat, dir, t)
    ensures Call(fat, dir, t).End? ==> IsChain(fat, dir, Prefix(fat, dir, t))
  {
    EndMeansChain(fat, dir, t);
  }

  /** `remove_dir_entry` marks the first matching entry deleted, and changes nothing else. */
  method RemoveDirEntry(fs: FatInfo, dir: nat, wanted: DirEntry -> bool) returns (err: Error)
    requires fs.Clean()
    modifies fs`buffer, fs`bufferSector, fs`lost, fs.dev
    ensures Blamed(old(fs.dev.tally), fs.dev.tally, fs.lost, err)
    ensures !fs.lost ==> fs.Clean()
    ensures fs.lost ==> err == Io
    ensures err == NotFound ==> Absent(fs.g, fs.dev.sectors, fs.Links(), dir, wanted)
    ensures err in {NotFound, BadFs} || fs.lost ==> fs.dev.sectors == old(fs.dev.sectors)
    ensures err == NoError ==> FirstDeleted(fs.g, old(fs.dev.sectors), fs.dev.sectors, fs.Links(), dir, wanted)
    ensures err == Io ==> fs.dev.sectors == old(fs.dev.sectors) || DeleteTried(fs.g, old(fs.dev.sectors), fs.dev.sectors, fs.Links(), dir, wanted)
    ensures err in {NoError, NotFound, BadFs, Io} && (err == BadFs ==> forall any :: !IsChain(fs.Links(), dir, any))
  {
    hide Represents, FirstMatch, Absent, FatOf;
    var c, k, j, sector;
    err, c, k, j, sector := Locate(fs, dir, wanted);
    if err != NoError {
      return;
    }
    ClusterAddress(fs.g, c, k);
    ghost var before := fs.dev.sectors;
    err := fs.dev.Write(DataLba32(fs.g, c, k), sector[32 * j := DELETED]);
    DataChangeKeeps(fs.g, before, fs.dev.sectors, fs.buffer, fs.bufferSector, false, fs.entries);
    assert SameBut(before, fs.dev.sectors, DataLba(fs.g, c, k));
    if err == NoError {
      assert MarkedDeleted(fs.g, before, fs.dev.sectors, c, k, j) by {
        assert fs.dev.sectors == before[DataLba(fs.g, c, k) := sector[32 * j := DELETED]];
      }
    }
  }

  ghost predicate FirstDeleted(g: Layout, before: Disk, after: Disk, fat: Fat, dir: nat, wanted: DirEntry -> bool)
    requires |before| == g.blocks
  {
    exists c: nat, k: nat, j: nat ::
      && ClusterIn(g, c) && k < g.sectorsPerCluster && j < 16
      && FirstMatch(g, before, fat, dir, wanted, c, k, j)
      && MarkedDeleted(g, before, after, c, k, j)
  }

  /** A write to the sector of the directory's first match failed: that sector may hold anything. */
  ghost predicate DeleteTried(g: Layout, before: Disk, after: Disk, fat: Fat, dir: nat, wanted: DirEntry -> bool)
    requires |before| == g.blocks
  {
    exists c: nat, k: nat, j: nat ::
      && ClusterIn(g, c) && k < g.sectorsPerCluster && j < 16
      && FirstMatch(g, before, fat, dir, wanted, c, k, j)
      && SameBut(before, after, DataLba(g, c, k))
  }

  ghost predicate MarkedDeleted(g: Layout, before: Disk, after: Disk, c: nat, k: nat, j: nat)
    requires |before| == g.blocks && ClusterIn(g, c) && k < g.sectorsPerCluster && j < 16
  {
    after == before[DataLba(g, c, k) := before[DataLba(g, c, k)][32 * j := DELETED]]
  }

  // ---- mkdir ----

  /** The first sector of a new directory: its own entry, its parent's, and the end mark. */
  function DotSector(own: nat, parent: nat): Sector
    requires own < U32 && parent < U32
  {
    MakeEntry([0x2E] + seq(10, _ => 0x20), ATTR_DIRECTORY, own)
    + MakeEntry([0x2E, 0x2E] + seq(9, _ => 0x20), ATTR_DIRECTORY, parent) + seq(448, _ => 0)
  }

  /** The first sector of a new directory, byte by byte. */
  lemma DotsWritten(own: nat, parent: nat)
    requires own < U32 && parent < U32
    ensures var s := DotSector(own, parent);
      && EntryBytes(s, 0, [0x2E, 0x20, 0x20, 0x20, 0x20, 0x20, 0x20, 0x20, 0x20, 0x20, 0x20], 0x10, own)
      && EntryBytes(s, 32, [0x2E, 0x2E, 0x20, 0x20, 0x20, 0x20, 0x20, 0x20, 0x20, 0x20, 0x20], 0x10, parent)
      && forall i :: 64 <= i < 512 ==> s[i] == 0
  {
    hide MakeEntry;
    var s, one, two := DotSector(own, parent), [0x2E] + seq(10, _ => 0x20), [0x2E, 0x2E] + seq(9, _ => 0x20);
    var e0, e1 := MakeEntry(one, ATTR_DIRECTORY, own), MakeEntry(two, ATTR_DIRECTORY, parent);
    EntryWritten(one, ATTR_DIRECTORY, own);
    EntryWritten(two, ATTR_DIRECTORY, parent);
    EntryMoved(e0, s, 0, one, ATTR_DIRECTORY, own);
    EntryMoved(e1, s, 32, two, ATTR_DIRECTORY, parent);
    assert one == [0x2E, 0x20, 0x20, 0x20, 0x20, 0x20, 0x20, 0x20, 0x20, 0x20, 0x20];
    assert two == [0x2E, 0x2E, 0x20, 0x20, 0x20, 0x20, 0x20, 0x20, 0x20, 0x20, 0x20];
  }

  lemma EntryMoved(e: DirEntry, s: seq<Byte>, o: nat, name: seq<Byte>, attr: nat, cluster: nat)
    requires o + 32 <= |s| && s[o..o + 32] == e && EntryBytes(e, 0, name, attr, cluster)
    ensures EntryBytes(s, o, name, attr, cluster)
  {
    hide Le;
    assert forall i :: 0 <= i < 32 ==> s[o + i] == e[i];
    assert s[o..o + 11] == e[0..0 + 11];
    LeWritten(s, o + 20);
    LeWritten(s, o + 26);
    LeWritten(e, 20);
    LeWritten(e, 26);
    forall i | o + 12 <= i < o + 32 && i !in {o + 20, o + 21, o + 26, o + 27}
      ensures s[i] == 0
    {
      assert s[i] == e[i - o];
    }
  }

  /** Directory `own` begins with "." and "..": the first names itself, the second its parent, or 0 for the root. */
  ghost predicate DotsAt(g: Layout, disk: Disk, own: nat, parent: nat)
    requires |disk| == g.blocks
  {
    && ClusterIn(g, own)
    && EntryBytes(disk[DataLba(g, own, 0)], 0, [0x2E, 0x20, 0x20, 0x20, 0x20, 0x20, 0x20, 0x20, 0x20, 0x20, 0x20], 0x10, own)
    && EntryBytes(disk[DataLba(g, own, 0)], 32, [0x2E, 0x2E, 0x20, 0x20, 0x20, 0x20, 0x20, 0x20, 0x20, 0x20, 0x20], 0x10,
                  if parent == g.root then 0 else parent)
  }

  /** The first 64 bytes of a sector stay as they are when an entry is put behind two that are in use. */
  lemma PlacedBehind(s: Sector, j: nat, e: DirEntry, name: seq<Byte>, attr: nat, cluster: nat, o: nat)
    requires 2 <= j < 16 && o <= 32 && EntryBytes(s, o, name, attr, cluster)
    ensures EntryBytes(Placed(s, j, e), o, name, attr, cluster)
  {
    hide Le;
    var t := Placed(s, j, e);
    assert forall i :: 0 <= i < 64 ==> t[i] == s[i];
    assert t[o..o + 11] == s[o..o + 11];
    LeWritten(s, o + 20);
    LeWritten(s, o + 26);
    LeWritten(t, o + 20);
    LeWritten(t, o + 26);
  }

  lemma UsedSlots(s: Sector, j: nat)
    requires s[0] == 0x2E && s[32] == 0x2E && j < 16 && IsFreeSlot(s, j)
    ensures j >= 2
  {
  }

  /** What `add_dir_entry` does later does not touch them. */
  lemma DotsStay(g: Layout, mid: Disk, after: Disk, raw: seq<nat>, raw': seq<nat>, parent: nat, e: DirEntry, own: nat)
    requires |mid| == g.blocks && |raw| == g.fatSectors * 128 && EntryAdded(g, mid, after, raw, raw', parent, e)
    requires DotsAt(g, mid, own, parent) && FatOf(g, raw)[own] != FREE
    ensures |after| == g.blocks && DotsAt(g, after, own, parent)
  {
    hide EntryBytes, FatOf, Placed, LastOf, FullTo, IsFreeSlot;
    var lba := DataLba(g, own, 0);
    ClusterAddress(g, own, 0);
    if raw' == raw && exists t: nat :: InPlace(g, mid, after, FatOf(g, raw), parent, t, e) {
      var t: nat :| InPlace(g, mid, after, FatOf(g, raw), parent, t, e);
      var c := Walk(FatOf(g, raw), parent, t);
      var k: nat, j: nat :| k < g.sectorsPerCluster && j < 16 && PlacedAt(g, mid, after, c, e, k, j);
      ClusterAddress(g, c, k);
      if DataLba(g, c, k) == lba {
        DotsPlaced(g, mid[lba], j, e, own, if parent == g.root then 0 else parent);
      }
    } else {
      var t: nat, c: nat :| InNew(g, mid, after, raw, raw', parent, t, c, e);
      ClustersDisjoint(g, own, c, lba);
    }
  }

  lemma DotsPlaced(g: Layout, s: Sector, j: nat, e: DirEntry, own: nat, up: nat)
    requires j < 16 && IsFreeSlot(s, j)
    requires EntryBytes(s, 0, [0x2E, 0x20, 0x20, 0x20, 0x20, 0x20, 0x20, 0x20, 0x20, 0x20, 0x20], 0x10, own)
    requires EntryBytes(s, 32, [0x2E, 0x2E, 0x20, 0x20, 0x20, 0x20, 0x20, 0x20, 0x20, 0x20, 0x20], 0x10, up)
    ensures EntryBytes(Placed(s, j, e), 0, [0x2E, 0x20, 0x20, 0x20, 0x20, 0x20, 0x20, 0x20, 0x20, 0x20, 0x20], 0x10, own)
    ensures EntryBytes(Placed(s, j, e), 32, [0x2E, 0x2E, 0x20, 0x20, 0x20, 0x20, 0x20, 0x20, 0x20, 0x20, 0x20], 0x10, up)
  {
    hide Placed, Le;
    assert s[0] == s[0..0 + 11][0] && s[32] == s[32..32 + 11][0];
    UsedSlots(s, j);
    PlacedBehind(s, j, e, [0x2E, 0x20, 0x20, 0x20, 0x20, 0x20, 0x20, 0x20, 0x20, 0x20, 0x20], 0x10, own, 0);
    PlacedBehind(s, j, e, [0x2E, 0x2E, 0x20, 0x20, 0x20, 0x20, 0x20, 0x20, 0x20, 0x20, 0x20], 0x10, up, 32);
  }

  /** A directory that was made begins with them. */
  lemma MadeDots(g: Layout, before: Disk, after: Disk, raw: seq<nat>, raw': seq<nat>, parent: nat, name: seq<Byte>, own: nat)
    requires |before| == g.blocks && |raw| == g.fatSectors * 128 && |name| == 11 && parent < U32
    requires DirectoryMade(g, before, after, raw, raw', parent, name, own)
    ensures |after| == g.blocks && DotsAt(g, after, own, parent)
  {
    hide EntryBytes, FatOf, EntryAdded, DotSector, MakeEntry;
    var up := if parent == g.root then 0 else parent;
    var mid: Disk :| |mid| == g.blocks && NewSectors(g, before, mid, own, DotSector(own, up))
      && EntryAdded(g, mid, after, Stored(raw, own, EOC_MAX), raw', parent, MakeEntry(name, ATTR_DIRECTORY, own));
    DotsWritten(own, up);
    StoredFat(g, raw, own, EOC_MAX);
    DotsStay(g, mid, after, Stored(raw, own, EOC_MAX), raw', parent, MakeEntry(name, ATTR_DIRECTORY, own), own);
  }

  /** What a successful `mkdir` did to the FAT: a free cluster became a chain of its own, and
      the parent directory may have grown by another. */
  ghost predicate MkdirEffect(g: Layout, before: seq<nat>, after: seq<nat>, parent: nat)
    requires |before| == g.fatSectors * 128
  {
    exists c: nat :: ClusterIn(g, c) && FatOf(g, before)[c] == FREE && AddEffect(g, Stored(before, c, EOC_MAX), after, parent)
  }

  /** Cluster `c` has become an empty directory, and then the parent has got an entry that names it. */
  ghost predicate Published(g: Layout, before: Disk, after: Disk, raw: seq<nat>, raw': seq<nat>, parent: nat, name: seq<Byte>, c: nat)
    requires |before| == g.blocks && |raw| == g.fatSectors * 128 && |name| == 11 && ClusterIn(g, c) && parent < U32
  {
    exists mid: Disk :: |mid| == g.blocks
      && NewSectors(g, before, mid, c, DotSector(c, if parent == g.root then 0 else parent))
      && EntryAdded(g, mid, after, raw, raw', parent, MakeEntry(name, ATTR_DIRECTORY, c))
  }

  /** The second half of `mkdir`, for the cluster just allocated. */
  method Publish(fs: FatInfo, parent: nat, name: seq<Byte>, c: nat) returns (err: Error, mayExist: bool)
    requires fs.Clean() && |name| == 11 && ClusterIn(fs.g, c) && fs.Links()[c] >= EOC_MIN && parent < U32
    modifies fs, fs.dev
    ensures BlamedTwice(old(fs.dev.tally), fs.dev.tally, fs.lost, err)
    ensures err == NoError ==> fs.Clean() && AddEffect(fs.g, old(fs.entries), fs.entries, parent)
    ensures err == NoError && Zeroed(fs.g, old(fs.dev.sectors), c) ==>
              Published(fs.g, old(fs.dev.sectors), fs.dev.sectors, old(fs.entries), fs.entries, parent, name, c)
    ensures !fs.lost && err != NoError && !mayExist ==> fs.Clean() && fs.entries == Stored(old(fs.entries), c, FREE)
    ensures err != NoError && !mayExist && fs.dev.tally.missed == old(fs.dev.tally).missed ==>
              fs.Kept() && (OnlyLeaks(fs.g, old(fs.entries), fs.entries) || fs.entries == Stored(old(fs.entries), c, FREE))
    ensures err != NoError && !mayExist ==> SameBesides(fs.g, old(fs.Links()), old(fs.dev.sectors), fs.dev.sectors, c)
    ensures err != NoError && mayExist ==> err == Io
    ensures err != NoError && mayExist && Zeroed(fs.g, old(fs.dev.sectors), c) ==>
              PublishTried(fs.g, old(fs.dev.sectors), fs.dev.sectors, old(fs.entries), fs.entries, fs.lost,
                           Failures(old(fs.dev.tally), fs.dev.tally), parent, name, c)
    ensures err in {NoError, Full, BadFs, Io} && (err == Full ==> forall x: nat :: ClusterIn(fs.g, x) ==> old(fs.Links())[x] != FREE)
    ensures err == BadFs ==> forall any :: !IsChain(old(fs.Links()), parent, any)
  {
    hide Represents, FatOf, Stored, AddEffect, DotSector, MakeEntry, EntryAdded, IsChain, EntryTried, SameFreeData, SameBesides, OnlyLeaks;
    mayExist := false;
    NoLeak(fs.g, fs.entries);
    err := fs.WriteSectors(c, DotSector(c, if parent == fs.g.root then 0 else parent), 0, 1);
    ghost var mid := fs.dev.sectors;
    SameAtAll(fs.g, fs.Links(), mid);
    assert fs.Links() == old(fs.Links());
    if err == NoError {
      assert Zeroed(fs.g, old(fs.dev.sectors), c) ==>
          NewSectors(fs.g, old(fs.dev.sectors), mid, c, DotSector(c, if parent == fs.g.root then 0 else parent));
      err, mayExist := AddDirEntry(fs, parent, MakeEntry(name, ATTR_DIRECTORY, c));
    }
    if err != NoError && !mayExist {
      ghost var late := fs.dev.sectors;
      if !fs.lost {
        fs.Rollback(c);
      }
      FreeBesides(fs.g, old(fs.Links()), old(fs.dev.sectors), mid, late, fs.dev.sectors, c);
    }
  }

  /** Outside the FAT copies, only sectors of cluster `c` and of clusters free in `fat` differ. */
  ghost predicate SameBesides(g: Layout, fat: Fat, before: Disk, after: Disk, c: nat)
    requires |before| == g.blocks && |fat| == g.clusterCount + 2 && ClusterIn(g, c)
  {
    && |after| == |before|
    && forall lba :: 0 <= lba < |before| && !IsFatLba(g, lba) && after[lba] != before[lba] ==>
         IsClusterLba(g, c, lba) || exists b: nat :: ClusterIn(g, b) && fat[b] == FREE && IsClusterLba(g, b, lba)
  }

  lemma FreeBesides(g: Layout, fat: Fat, before: Disk, mid: Disk, late: Disk, after: Disk, c: nat)
    requires |before| == |mid| == g.blocks && |fat| == g.clusterCount + 2 && ClusterIn(g, c)
    requires SameDataBut(g, before, mid, c) && SameFreeData(g, fat, mid, late) && SameData(g, late, after)
    ensures SameBesides(g, fat, before, after, c)
  {
  }

  /** Cluster `c` has become an empty directory, and the parent may have got an entry that names it. */
  ghost predicate PublishTried(g: Layout, before: Disk, after: Disk, raw: seq<nat>, raw': seq<nat>,
                               lost: bool, failed: int, parent: nat, name: seq<Byte>, c: nat)
    requires |before| == g.blocks && |raw| == g.fatSectors * 128 && |name| == 11 && ClusterIn(g, c) && parent < U32
  {
    exists mid: Disk :: |mid| == g.blocks
      && NewSectors(g, before, mid, c, DotSector(c, if parent == g.root then 0 else parent))
      && EntryTried(g, mid, after, raw, raw', lost, failed, parent, MakeEntry(name, ATTR_DIRECTORY, c))
  }

  /** `mkdir` after path resolution.  On every pattern of device failures, if it fails without
      possibly having published the entry, and no FAT read and no clean-up failed, every FAT copy
      on disk is word for word what it was. */
  method Mkdir(fs: FatInfo, parent: nat, wanted: DirEntry -> bool, name: seq<Byte>) returns (err: Error, mayExist: bool)
    requires fs.Clean() && |name| == 11 && parent < U32
    modifies fs, fs.dev
    ensures err in {NoError, Exists, Full, BadFs, Io}
    ensures err == BadFs ==> forall any :: !IsChain(old(fs.Links()), parent, any)
    ensures err == Full ==> forall x: nat, y: nat :: ClusterIn(fs.g, x) && ClusterIn(fs.g, y) && old(fs.Links())[x] == FREE == old(fs.Links())[y] ==> x == y
    ensures BlamedTwice(old(fs.dev.tally), fs.dev.tally, fs.lost, err)
    ensures err == NoError ==> fs.Clean() && MkdirEffect(fs.g, old(fs.entries), fs.entries, parent)
    ensures err == NoError ==> Absent(fs.g, old(fs.dev.sectors), old(fs.Links()), parent, wanted)
    ensures err == NoError ==>
              exists own: nat :: && DirectoryMade(fs.g, old(fs.dev.sectors), fs.dev.sectors, old(fs.entries), fs.entries, parent, name, own)
                                 && DotsAt(fs.g, fs.dev.sectors, own, parent)
    ensures err == Exists ==> fs.dev.sectors == old(fs.dev.sectors) && fs.entries == old(fs.entries)
                              && exists e :: Finds(fs.g, fs.dev.sectors, fs.Links(), parent, wanted, e)
    ensures !fs.lost && err != NoError && !mayExist ==>
              && fs.Clean() && fs.entries == old(fs.entries)
              && (forall i :: 0 <= i < fs.g.fatCount ==>
                   OnDisk(fs.g, fs.dev.sectors, i) == OnDisk(fs.g, old(fs.dev.sectors), i))
    ensures err != NoError && !mayExist ==> SameFreeData(fs.g, old(fs.Links()), old(fs.dev.sectors), fs.dev.sectors)
    ensures err != NoError && !mayExist && fs.dev.tally.missed == old(fs.dev.tally).missed ==>
              fs.Kept() && OnlyLeaks(fs.g, old(fs.entries), fs.entries)
    ensures err != NoError && mayExist ==> err == Io
    ensures err != NoError && mayExist ==>
              exists own: nat :: DirectoryTried(fs.g, old(fs.dev.sectors), fs.dev.sectors, old(fs.entries), fs.entries, fs.lost,
                                                Failures(old(fs.dev.tally), fs.dev.tally), parent, name, own)
  {
    hide Represents, FatOf, Stored, AddEffect, OnDisk, Absent, DirectoryMade, Finds, SameFreeData, DirectoryTried, OnlyLeaks, DotsAt;
    ghost var before := fs.entries;
    forall i | 0 <= i < fs.g.fatCount
      ensures OnDisk(fs.g, fs.dev.sectors, i) == fs.entries
    {
      fs.CopiesAgree(i);
    }
    err, mayExist := MkdirBody(fs, parent, wanted, name);
    if err == NoError {
      ghost var own: nat :| DirectoryMade(fs.g, old(fs.dev.sectors), fs.dev.sectors, old(fs.entries), fs.entries, parent, name, own);
      MadeDots(fs.g, old(fs.dev.sectors), fs.dev.sectors, old(fs.entries), fs.entries, parent, name, own);
    }
    if fs.Clean() {
      forall i | 0 <= i < fs.g.fatCount
        ensures OnDisk(fs.g, fs.dev.sectors, i) == fs.entries
      {
        fs.CopiesAgree(i);
      }
    }
  }

  method MkdirBody(fs: FatInfo, parent: nat, wanted: DirEntry -> bool, name: seq<Byte>) returns (err: Error, mayExist: bool)
    requires fs.Clean() && |name| == 11 && parent < U32
    modifies fs, fs.dev
    ensures err in {NoError, Exists, Full, BadFs, Io}
    ensures err == BadFs ==> forall any :: !IsChain(old(fs.Links()), parent, any)
    ensures err == Full ==> forall x: nat, y: nat :: ClusterIn(fs.g, x) && ClusterIn(fs.g, y) && old(fs.Links())[x] == FREE == old(fs.Links())[y] ==> x == y
    ensures BlamedTwice(old(fs.dev.tally), fs.dev.tally, fs.lost, err)
    ensures err == NoError ==> fs.Clean() && MkdirEffect(fs.g, old(fs.entries), fs.entries, parent)
    ensures err == NoError ==> Absent(fs.g, old(fs.dev.sectors), old(fs.Links()), parent, wanted)
    ensures err == NoError ==> exists own: nat :: DirectoryMade(fs.g, old(fs.dev.sectors), fs.dev.sectors, old(fs.entries), fs.entries, parent, name, own)
    ensures err == Exists ==> fs.dev.sectors == old(fs.dev.sectors) && fs.entries == old(fs.entries)
                              && exists e :: Finds(fs.g, fs.dev.sectors, fs.Links(), parent, wanted, e)
    ensures !fs.lost && err != NoError && !mayExist ==> fs.Clean() && fs.entries == old(fs.entries)
    ensures err != NoError && !mayExist ==> SameFreeData(fs.g, old(fs.Links()), old(fs.dev.sectors), fs.dev.sectors)
    ensures err != NoError && !mayExist && fs.dev.tally.missed == old(fs.dev.tally).missed ==>
              fs.Kept() && OnlyLeaks(fs.g, old(fs.entries), fs.entries)
    ensures err != NoError && mayExist ==> err == Io
    ensures err != NoError && mayExist ==>
              exists own: nat :: DirectoryTried(fs.g, old(fs.dev.sectors), fs.dev.sectors, old(fs.entries), fs.entries, fs.lost,
                                                Failures(old(fs.dev.tally), fs.dev.tally), parent, name, own)
  {
    hide Represents, FatOf, Stored, AddEffect, FirstMatch, Absent, NewSectors, EntryAdded, IsChain, EntryTried, SameFreeData, SameBesides, OnlyLeaks,
      DirectoryMade, DirectoryTried, Published, PublishTried;
    SameAtAll(fs.g, fs.Links(), fs.dev.sectors);
    NoLeak(fs.g, fs.entries);
    var c, k, j, sector;
    err, c, k, j, sector := Locate(fs, parent, wanted);
    assert !fs.lost ==> fs.Links() == old(fs.Links());
    if err == NoError {
      assert Finds(fs.g, fs.dev.sectors, fs.Links(), parent, wanted, EntryAt(fs.dev.sectors[DataLba(fs.g, c, k)], j));
      return Exists, false;
    }
    if err != NotFound {
      return err, false;
    }
    ghost var raw := fs.entries;
    ghost var disk := fs.dev.sectors;
    var r := fs.AllocCluster();
    if r.Failure? {
      return r.error, false;
    }
    StoredFat(fs.g, raw, r.value, EOC_MAX);
    StoredTwice(fs.g, raw, r.value, EOC_MAX);
    ghost var blank := fs.dev.sectors;
    ghost var fat := FatOf(fs.g, raw);
    forall any | IsChain(fat, parent, any)
      ensures IsChain(fs.Links(), parent, any)
    {
      ChainAvoidsFree(fat, parent, any, r.value, EOC_MAX);
    }
    ghost var linked := fs.Links();
    assert fs.dev.tally == old(fs.dev.tally);
    err, mayExist := Publish(fs, parent, name, r.value);
    if err == NoError {
      MadeOver(fs.g, disk, blank, fs.dev.sectors, raw, fs.entries, parent, name, r.value);
    } else if mayExist {
      TriedOver(fs.g, disk, blank, fs.dev.sectors, raw, fs.entries, fs.lost, Failures(old(fs.dev.tally), fs.dev.tally), parent, name, r.value);
    } else {
      if OnlyLeaks(fs.g, Stored(raw, r.value, EOC_MAX), fs.entries) {
        MoreLeaks(fs.g, raw, r.value, fs.entries);
      }
      BackToFree(fs.g, fat, linked, disk, blank, fs.dev.sectors, r.value);
    }
  }

  /** The lowest free cluster `own` has become an empty directory that an entry of the parent may name. */
  ghost predicate DirectoryTried(g: Layout, before: Disk, after: Disk, raw: seq<nat>, raw': seq<nat>,
                                 lost: bool, failed: int, parent: nat, name: seq<Byte>, own: nat)
    requires |before| == g.blocks && |raw| == g.fatSectors * 128 && |name| == 11 && parent < U32
  {
    && ClusterIn(g, own) && FatOf(g, raw)[own] == FREE && (forall b :: 2 <= b < own ==> FatOf(g, raw)[b] != FREE)
    && PublishTried(g, before, after, Stored(raw, own, EOC_MAX), raw', lost, failed, parent, name, own)
  }

  lemma TriedOver(g: Layout, disk: Disk, blank: Disk, after: Disk, raw: seq<nat>, raw': seq<nat>,
                  lost: bool, failed: int, parent: nat, name: seq<Byte>, own: nat)
    requires |disk| == |blank| == g.blocks && |raw| == g.fatSectors * 128 && |name| == 11 && parent < U32 && ClusterIn(g, own)
    requires FatOf(g, raw)[own] == FREE && (forall b :: 2 <= b < own ==> FatOf(g, raw)[b] != FREE) && SameDataBut(g, disk, blank, own)
    requires PublishTried(g, blank, after, Stored(raw, own, EOC_MAX), raw', lost, failed, parent, name, own)
    ensures DirectoryTried(g, disk, after, raw, raw', lost, failed, parent, name, own)
  {
    hide EntryTried, DotSector, MakeEntry, FatOf;
    var dots := DotSector(own, if parent == g.root then 0 else parent);
    var mid: Disk :| |mid| == g.blocks && NewSectors(g, blank, mid, own, dots)
      && EntryTried(g, mid, after, Stored(raw, own, EOC_MAX), raw', lost, failed, parent, MakeEntry(name, ATTR_DIRECTORY, own));
    assert NewSectors(g, disk, mid, own, dots);
  }

  lemma BackToFree(g: Layout, fat: Fat, linked: Fat, disk: Disk, blank: Disk, after: Disk, c: nat)
    requires |disk| == |blank| == g.blocks && |fat| == |linked| == g.clusterCount + 2 && ClusterIn(g, c) && fat[c] == FREE
    requires SameDataBut(g, disk, blank, c) && SameBesides(g, linked, blank, after, c)
    requires forall b: nat :: ClusterIn(g, b) && linked[b] == FREE ==> fat[b] == FREE
    ensures SameFreeData(g, fat, disk, after)
  {
  }

  /** The lowest free cluster `own` has become an empty directory that an entry of the parent names. */
  ghost predicate DirectoryMade(g: Layout, before: Disk, after: Disk, raw: seq<nat>, raw': seq<nat>, parent: nat, name: seq<Byte>, own: nat)
    requires |before| == g.blocks && |raw| == g.fatSectors * 128 && |name| == 11 && parent < U32
  {
    && ClusterIn(g, own) && FatOf(g, raw)[own] == FREE && (forall b :: 2 <= b < own ==> FatOf(g, raw)[b] != FREE)
    && Published(g, before, after, Stored(raw, own, EOC_MAX), raw', parent, name, own)
  }

  lemma MadeOver(g: Layout, disk: Disk, blank: Disk, after: Disk, raw: seq<nat>, raw': seq<nat>, parent: nat, name: seq<Byte>, own: nat)
    requires |disk| == |blank| == g.blocks && |raw| == g.fatSectors * 128 && |name| == 11 && parent < U32 && ClusterIn(g, own)
    requires FatOf(g, raw)[own] == FREE && (forall b :: 2 <= b < own ==> FatOf(g, raw)[b] != FREE) && SameDataBut(g, disk, blank, own)
    requires Published(g, blank, after, Stored(raw, own, EOC_MAX), raw', parent, name, own)
    ensures DirectoryMade(g, disk, after, raw, raw', parent, name, own)
  {
    hide EntryAdded, DotSector, MakeEntry, FatOf;
    var dots := DotSector(own, if parent == g.root then 0 else parent);
    var mid: Disk :| |mid| == g.blocks && NewSectors(g, blank, mid, own, dots)
      && EntryAdded(g, mid, after, Stored(raw, own, EOC_MAX), raw', parent, MakeEntry(name, ATTR_DIRECTORY, own));
    assert NewSectors(g, disk, mid, own, dots);
  }

  /** `create_file` after path resolution: an entry without clusters, unless the name is taken. */
  method CreateFile(fs: FatInfo, parent: nat, wanted: DirEntry -> bool, name: seq<Byte>) returns (err: Error)
    requires fs.Clean() && |name| == 11
    modifies fs, fs.dev
    ensures err in {NoError, Exists, Full, BadFs, Io} && (err == Full ==> forall x: nat :: ClusterIn(fs.g, x) ==> old(fs.Links())[x] != FREE)
    ensures err == BadFs ==> forall any :: !IsChain(old(fs.Links()), parent, any)
    ensures BlamedTwice(old(fs.dev.tally), fs.dev.tally, fs.lost, err)
    ensures err == NoError ==> fs.Clean() && AddEffect(fs.g, old(fs.entries), fs.entries, parent)
    ensures err == NoError ==> Absent(fs.g, old(fs.dev.sectors), old(fs.Links()), parent, wanted)
    ensures err == NoError ==>
              EntryAdded(fs.g, old(fs.dev.sectors), fs.dev.sectors, old(fs.entries), fs.entries, parent, MakeEntry(name, 0x20, 0))
    ensures err == Exists ==> fs.dev.sectors == old(fs.dev.sectors) && fs.entries == old(fs.entries)
                              && exists e :: Finds(fs.g, fs.dev.sectors, fs.Links(), parent, wanted, e)
    ensures !fs.lost && err != NoError ==>
              || (fs.Clean() && fs.entries == old(fs.entries) && SameFreeData(fs.g, old(fs.Links()), old(fs.dev.sectors), fs.dev.sectors))
              || (err == Io && EntryTried(fs.g, old(fs.dev.sectors), fs.dev.sectors, old(fs.entries), fs.entries, fs.lost,
                                          Failures(old(fs.dev.tally), fs.dev.tally), parent, MakeEntry(name, ATTR_ARCHIVE, 0)))
    ensures err != NoError && fs.dev.tally.missed == old(fs.dev.tally).missed ==>
              || (fs.Kept() && OnlyLeaks(fs.g, old(fs.entries), fs.entries) && SameFreeData(fs.g, old(fs.Links()), old(fs.dev.sectors), fs.dev.sectors))
              || (err == Io && EntryTried(fs.g, old(fs.dev.sectors), fs.dev.sectors, old(fs.entries), fs.entries, fs.lost,
                                          Failures(old(fs.dev.tally), fs.dev.tally), parent, MakeEntry(name, ATTR_ARCHIVE, 0)))
  {
    hide Represents, FatOf, AddEffect, FirstMatch, Absent, EntryAdded, MakeEntry, IsChain, EntryTried, SameFreeData, OnlyLeaks;
    SameAtAll(fs.g, fs.Links(), fs.dev.sectors);
    NoLeak(fs.g, fs.entries);
    var c, k, j, sector;
    err, c, k, j, sector := Locate(fs, parent, wanted);
    assert !fs.lost ==> fs.Links() == old(fs.Links());
    if err == NoError {
      assert Finds(fs.g, fs.dev.sectors, fs.Links(), parent, wanted, EntryAt(fs.dev.sectors[DataLba(fs.g, c, k)], j));
      return Exists;
    }
    if err != NotFound {
      return;
    }
    var mayExist;
    err, mayExist := AddDirEntry(fs, parent, MakeEntry(name, ATTR_ARCHIVE, 0));
  }

  // ---- unlink and rmdir ----

  /** What removing an entry for the chain at `head` did to the FAT: it freed that whole
      chain, or nothing if the entry has none. */
  ghost predicate RemoveEffect(g: Layout, before: seq<nat>, after: seq<nat>, head: nat)
    requires |before| == g.fatSectors * 128
  {
    if head < 2 then after == before
    else exists chain :: IsChain(FatOf(g, before), head, chain) && FreedUpTo(before, after, chain, |chain|)
  }

  /** `e` is the first matching entry of the directory. */
  ghost predicate Finds(g: Layout, disk: Disk, fat: Fat, dir: nat, wanted: DirEntry -> bool, e: DirEntry)
    requires |disk| == g.blocks
  {
    exists c: nat, k: nat, j: nat ::
      && ClusterIn(g, c) && k < g.sectorsPerCluster && j < 16
      && FirstMatch(g, disk, fat, dir, wanted, c, k, j)
      && e == EntryAt(disk[DataLba(g, c, k)], j)
  }

  /** The first match of the directory, found over the links `fat`, has been marked deleted; the other data is as it was. */
  ghost predicate EntryRemoved(g: Layout, before: Disk, after: Disk, fat: Fat, dir: nat, wanted: DirEntry -> bool)
    requires |before| == g.blocks
  {
    exists mid: Disk :: |mid| == g.blocks && SameData(g, before, mid) && FirstDeleted(g, mid, after, fat, dir, wanted)
  }

  /** The same, but the write to the sector of the first match failed. */
  ghost predicate RemoveTried(g: Layout, before: Disk, after: Disk, fat: Fat, dir: nat, wanted: DirEntry -> bool)
    requires |before| == g.blocks
  {
    exists mid: Disk :: |mid| == g.blocks && SameData(g, before, mid) && DeleteTried(g, mid, after, fat, dir, wanted)
  }

  /** The chain of the entry that is found is free, but the entry is there. */
  ghost predicate Unhooked(g: Layout, before: Disk, raw: seq<nat>, raw': seq<nat>, parent: nat, wanted: DirEntry -> bool, e: DirEntry)
    requires |before| == g.blocks && |raw| == g.fatSectors * 128
  {
    Finds(g, before, FatOf(g, raw), parent, wanted, e) && RemoveEffect(g, raw, raw', ClusterOf(e))
  }

  ghost predicate NoChain(fat: Fat, start: nat) {
    forall any :: !IsChain(fat, start, any)
  }

  /** Some first clusters of the chain of the entry that is found are free. */
  ghost predicate PartFreed(g: Layout, before: Disk, raw: seq<nat>, raw': seq<nat>, parent: nat, wanted: DirEntry -> bool, e: DirEntry)
    requires |before| == g.blocks && |raw| == g.fatSectors * 128
  {
    && Finds(g, before, FatOf(g, raw), parent, wanted, e)
    && exists chain, n: nat :: IsChain(FatOf(g, raw), ClusterOf(e), chain) && FreedUpTo(raw, raw', chain, n)
  }

  /** Why a removal failed, and what it left behind: the name is not there, or a chain is malformed, each
      before anything changed or, on a volume whose chains overlap, after the chain was freed; or the
      device failed with part of the chain free and all other data as it was, or with the whole chain free
      and the sector of the entry in any state. */
  ghost predicate RemoveFailed(g: Layout, before: Disk, after: Disk, raw: seq<nat>, raw': seq<nat>, parent: nat, wanted: DirEntry -> bool,
                               e: DirEntry, err: Error)
    requires |before| == g.blocks && |raw| == g.fatSectors * 128
  {
    && |after| == g.blocks && |raw'| == g.fatSectors * 128
    && var fat, fat', untouched := FatOf(g, raw), FatOf(g, raw'), after == before && raw' == raw;
       var unhooked, same := Unhooked(g, before, raw, raw', parent, wanted, e), SameData(g, before, after);
       && (err == NotFound ==> (untouched || (unhooked && same)) && Absent(g, after, fat', parent, wanted))
       && (err == BadFs ==>
             || (untouched && (NoChain(fat, parent) || (Finds(g, before, fat, parent, wanted, e) && NoChain(fat, ClusterOf(e)))))
             || (unhooked && same && NoChain(fat', parent)))
       && (err == Io ==>
             || (same && (raw' == raw || PartFreed(g, before, raw, raw', parent, wanted, e)))
             || (unhooked && RemoveTried(g, before, after, fat', parent, wanted)))
  }

  /** A file loses its clusters and then its entry; a directory is refused. */
  method UnlinkFile(fs: FatInfo, parent: nat, wanted: DirEntry -> bool) returns (err: Error, ghost e: DirEntry)
    requires fs.Clean()
    modifies fs, fs.dev
    ensures err in {NoError, NotFound, Invalid, BadFs, Io}
    ensures err == Invalid ==>
              && fs.dev.sectors == old(fs.dev.sectors) && fs.entries == old(fs.entries)
              && Finds(fs.g, fs.dev.sectors, fs.Links(), parent, wanted, e) && IsDirectory(e)
    ensures Blamed(old(fs.dev.tally), fs.dev.tally, fs.lost, err)
    ensures err == NoError ==>
              && fs.Clean() && Finds(fs.g, old(fs.dev.sectors), old(fs.Links()), parent, wanted, e) && !IsDirectory(e)
              && RemoveEffect(fs.g, old(fs.entries), fs.entries, ClusterOf(e))
              && EntryRemoved(fs.g, old(fs.dev.sectors), fs.dev.sectors, fs.Links(), parent, wanted)
    ensures fs.lost ==> SameData(fs.g, old(fs.dev.sectors), fs.dev.sectors)
    ensures err in {NotFound, BadFs} || (err == Io && !fs.lost) ==>
              RemoveFailed(fs.g, old(fs.dev.sectors), fs.dev.sectors, old(fs.entries), fs.entries, parent, wanted, e, err)
  {
    hide Represents, FatOf, FirstMatch, Absent, FirstDeleted, IsChain, FreedUpTo, EntryAt, IsDirectory, ClusterOf, RemoveFailed, DeleteTried;
    e := seq(32, _ => 0);
    var c, k, j, sector;
    err, c, k, j, sector := Locate(fs, parent, wanted);
    assert !fs.lost ==> fs.Links() == old(fs.Links());
    if err != NoError {
      if !fs.lost {
        FailedEarly(fs.g, fs.dev.sectors, fs.entries, parent, wanted, e, err);
      }
      return;
    }
    var entry := EntryAt(sector, j);
    e := entry;
    assert Finds(fs.g, fs.dev.sectors, fs.Links(), parent, wanted, e);
    if IsDirectory(entry) {
      return Invalid, e;
    }
    if ClusterOf(entry) >= 2 {
      ghost var chain;
      err, chain := FreeAndRemove(fs, parent, wanted, ClusterOf(entry), e);
    } else {
      err := RemoveDirEntry(fs, parent, wanted);
      assert !fs.lost ==> fs.Links() == old(fs.Links());
      if err == NoError {
        assert SameData(fs.g, old(fs.dev.sectors), old(fs.dev.sectors));
      } else if !fs.lost {
        RemoveEnded(fs.g, old(fs.dev.sectors), fs.dev.sectors, fs.entries, parent, wanted, e, err);
      }
    }
  }

  /** The common end of `unlink` and `rmdir`: the chain is freed, and then the entry is marked deleted. */
  method FreeAndRemove(fs: FatInfo, parent: nat, wanted: DirEntry -> bool, head: nat, ghost e: DirEntry) returns (err: Error, ghost chain: seq<nat>)
    requires fs.Clean() && Finds(fs.g, fs.dev.sectors, fs.Links(), parent, wanted, e) && ClusterOf(e) == head
    modifies fs, fs.dev
    ensures Blamed(old(fs.dev.tally), fs.dev.tally, fs.lost, err) && err in {NoError, NotFound, BadFs, Io}
    ensures err == NoError ==>
              && fs.Clean() && IsChain(old(fs.Links()), head, chain) && FreedUpTo(old(fs.entries), fs.entries, chain, |chain|)
              && RemoveEffect(fs.g, old(fs.entries), fs.entries, head)
              && EntryRemoved(fs.g, old(fs.dev.sectors), fs.dev.sectors, fs.Links(), parent, wanted)
    ensures fs.lost ==> SameData(fs.g, old(fs.dev.sectors), fs.dev.sectors)
    ensures err in {NotFound, BadFs} || (err == Io && !fs.lost) ==>
              RemoveFailed(fs.g, old(fs.dev.sectors), fs.dev.sectors, old(fs.entries), fs.entries, parent, wanted, e, err)
  {
    hide Represents, FatOf, Absent, FirstDeleted, IsChain, FreedUpTo, ClusterOf, Finds, RemoveFailed, RemoveEffect, Unhooked, DeleteTried;
    ghost var freed, before, raw := 0, fs.dev.sectors, fs.entries;
    err, chain, freed := fs.FreeChain(head);
    if err != NoError {
      if err == BadFs {
        FailedEarly(fs.g, before, raw, parent, wanted, e, err);
      } else if !fs.lost {
        FailedPartly(fs.g, before, fs.dev.sectors, raw, fs.entries, parent, wanted, e, chain, freed);
      }
      return;
    }
    ghost var mid := fs.dev.sectors;
    WholeFreed(fs.g, before, raw, fs.entries, parent, wanted, e, chain);
    err := RemoveDirEntry(fs, parent, wanted);
    if err != NoError && !fs.lost {
      assert fs.Links() == FatOf(fs.g, fs.entries);
      if err == Io && fs.dev.sectors == mid {
        FailedPartly(fs.g, before, mid, raw, fs.entries, parent, wanted, e, chain, |chain|);
      } else {
        FailedLate(fs.g, before, mid, fs.dev.sectors, raw, fs.entries, parent, wanted, e, err);
      }
    }
  }

  /** Nothing was changed. */
  lemma FailedEarly(g: Layout, disk: Disk, raw: seq<nat>, parent: nat, wanted: DirEntry -> bool, e: DirEntry, err: Error)
    requires |disk| == g.blocks && |raw| == g.fatSectors * 128
    requires err == NotFound ==> Absent(g, disk, FatOf(g, raw), parent, wanted)
    requires err == BadFs ==> || NoChain(FatOf(g, raw), parent)
                              || (Finds(g, disk, FatOf(g, raw), parent, wanted, e) && NoChain(FatOf(g, raw), ClusterOf(e)))
    ensures RemoveFailed(g, disk, disk, raw, raw, parent, wanted, e, err)
  {
    hide FatOf, Absent, NoChain, Finds, ClusterOf, Unhooked, PartFreed;
  }

  /** The device failed, with the first `n` clusters of the chain free. */
  lemma FailedPartly(g: Layout, before: Disk, after: Disk, raw: seq<nat>, raw': seq<nat>, parent: nat, wanted: DirEntry -> bool, e: DirEntry,
                     chain: seq<nat>, n: nat)
    requires |before| == |after| == g.blocks && |raw| == |raw'| == g.fatSectors * 128
    requires Finds(g, before, FatOf(g, raw), parent, wanted, e) && IsChain(FatOf(g, raw), ClusterOf(e), chain) && FreedUpTo(raw, raw', chain, n)
    requires SameData(g, before, after)
    ensures RemoveFailed(g, before, after, raw, raw', parent, wanted, e, Io)
  {
    hide FatOf, Absent, NoChain, Finds, ClusterOf, Unhooked, IsChain, FreedUpTo;
    assert PartFreed(g, before, raw, raw', parent, wanted, e);
  }

  lemma WholeFreed(g: Layout, before: Disk, raw: seq<nat>, raw': seq<nat>, parent: nat, wanted: DirEntry -> bool, e: DirEntry, chain: seq<nat>)
    requires |before| == g.blocks && |raw| == g.fatSectors * 128 && Finds(g, before, FatOf(g, raw), parent, wanted, e)
    requires IsChain(FatOf(g, raw), ClusterOf(e), chain) && FreedUpTo(raw, raw', chain, |chain|)
    ensures RemoveEffect(g, raw, raw', ClusterOf(e)) && Unhooked(g, before, raw, raw', parent, wanted, e)
  {
    hide FatOf, Finds, ClusterOf, FreedUpTo;
    assert ClusterOf(e) >= 2 by { StartsOnVolume(FatOf(g, raw), ClusterOf(e), chain); }
  }

  /** The chain was freed, and then the entry could not be found or marked deleted. */
  lemma FailedLate(g: Layout, before: Disk, mid: Disk, after: Disk, raw: seq<nat>, raw': seq<nat>, parent: nat, wanted: DirEntry -> bool,
                   e: DirEntry, err: Error)
    requires |before| == |mid| == |after| == g.blocks && |raw| == |raw'| == g.fatSectors * 128 && err in {NotFound, BadFs, Io}
    requires Unhooked(g, before, raw, raw', parent, wanted, e) && SameData(g, before, mid)
    requires err == NotFound ==> after == mid && Absent(g, after, FatOf(g, raw'), parent, wanted)
    requires err == BadFs ==> after == mid && NoChain(FatOf(g, raw'), parent)
    requires err == Io ==> DeleteTried(g, mid, after, FatOf(g, raw'), parent, wanted)
    ensures RemoveFailed(g, before, after, raw, raw', parent, wanted, e, err)
  {
    hide FatOf, Absent, NoChain, Finds, ClusterOf, Unhooked, PartFreed, DeleteTried, SameData;
  }

  /** An entry without a chain: only the write can have failed. */
  lemma RemoveEnded(g: Layout, before: Disk, after: Disk, raw: seq<nat>, parent: nat, wanted: DirEntry -> bool, e: DirEntry, err: Error)
    requires |before| == |after| == g.blocks && |raw| == g.fatSectors * 128 && (err in {NotFound, BadFs} ==> after == before)
    requires Finds(g, before, FatOf(g, raw), parent, wanted, e) && ClusterOf(e) < 2
    requires err == NotFound ==> Absent(g, after, FatOf(g, raw), parent, wanted)
    requires err == BadFs ==> NoChain(FatOf(g, raw), parent)
    requires err == Io ==> after == before || DeleteTried(g, before, after, FatOf(g, raw), parent, wanted)
    ensures RemoveFailed(g, before, after, raw, raw, parent, wanted, e, err)
  {
    hide FatOf, Absent, NoChain, Finds, ClusterOf, PartFreed, DeleteTried;
    assert SameData(g, before, before);
  }

  lemma StartsOnVolume(fat: Fat, s: nat, chain: seq<nat>)
    requires IsChain(fat, s, chain)
    ensures s >= 2
  {
  }

  predicate IsDot(e: DirEntry) {
    e[0] == 0x2E && (e[1] == 0x20 || (e[1] == 0x2E && e[2] == 0x20))
  }

  /** The names that `rmdir` passes over: a dot, or two, and a blank. */
  lemma DotNames(e: DirEntry)
    ensures IsDot(e) <==> e[..2] == [0x2E, 0x20] || e[..3] == [0x2E, 0x2E, 0x20]
  {
  }

  /** Up to its end mark the sector holds no valid entry but the two dot entries. */
  predicate OnlyDots(s: Sector) {
    forall j :: 0 <= j < 16 && (forall i :: 0 <= i <= j ==> s[32 * i] != 0) && IsValidEntry(EntryAt(s, j)) ==> IsDot(EntryAt(s, j))
  }

  /** The emptiness test of `rmdir` on one sector. */
  method SectorEmpty(s: Sector) returns (empty: bool)
    ensures empty == OnlyDots(s)
  {
    empty := true;
    for j := 0 to 16
      invariant forall i :: 0 <= i < j ==> s[32 * i] != 0
      invariant empty == forall k :: 0 <= k < j && IsValidEntry(EntryAt(s, k)) ==> IsDot(EntryAt(s, k))
    {
      if s[32 * j] == 0 {
        return;
      }
      if IsValidEntry(EntryAt(s, j)) && !IsDot(EntryAt(s, j)) {
        empty := false;
      }
    }
  }

  ghost predicate ClusterOnlyDots(g: Layout, disk: Disk, c: nat)
    requires |disk| == g.blocks && ClusterIn(g, c)
  {
    forall k {:trigger DataLba(g, c, k)} :: 0 <= k < g.sectorsPerCluster ==> OnlyDots(disk[DataLba(g, c, k)])
  }

  /** The emptiness test of `rmdir` on one cluster. */
  method ClusterEmpty(fs: FatInfo, c: nat) returns (err: Error, empty: bool)
    requires fs.Clean() && ClusterIn(fs.g, c)
    modifies fs.dev`script, fs.dev`tally
    ensures Blamed(old(fs.dev.tally), fs.dev.tally, fs.lost, err)
    ensures fs.Clean() && err in {NoError, Io}
    ensures err == NoError ==> empty == ClusterOnlyDots(fs.g, fs.dev.sectors, c)
  {
    hide Represents, OnlyDots;
    empty := true;
    var i := 0;
    while i < fs.g.sectorsPerCluster && empty
      invariant fs.Clean() && i <= fs.g.sectorsPerCluster && fs.dev.tally == old(fs.dev.tally)
      invariant empty ==> forall k {:trigger DataLba(fs.g, c, k)} :: 0 <= k < i ==> OnlyDots(fs.dev.sectors[DataLba(fs.g, c, k)])
      invariant !empty ==> exists k {:trigger DataLba(fs.g, c, k)} :: 0 <= k < i && !OnlyDots(fs.dev.sectors[DataLba(fs.g, c, k)])
    {
      ClusterAddress(fs.g, c, i);
      var sector;
      err, sector := fs.dev.Read(DataLba32(fs.g, c, i));
      if err != NoError {
        return Io, false;
      }
      empty := SectorEmpty(sector);
      i := i + 1;
    }
    return NoError, empty;
  }

  /** Every cluster of `chain` holds at most the dot entries. */
  ghost predicate ChainEmpty(g: Layout, disk: Disk, chain: seq<nat>)
    requires |disk| == g.blocks
  {
    forall i :: 0 <= i < |chain| ==> ClusterIn(g, chain[i]) && ClusterOnlyDots(g, disk, chain[i])
  }

  /** Cluster number `t` of the directory holds an entry other than the dot entries. */
  ghost predicate Occupies(g: Layout, disk: Disk, fat: Fat, dir: nat, t: nat)
    requires |disk| == g.blocks
  {
    ClusterIn(g, Walk(fat, dir, t)) && !ClusterOnlyDots(g, disk, Walk(fat, dir, t))
  }

  /** The emptiness test of `rmdir` on the whole directory. */
  method DirectoryEmpty(fs: FatInfo, dir: nat) returns (err: Error, empty: bool)
    requires fs.Clean()
    modifies fs`buffer, fs`bufferSector, fs`lost, fs.dev`script, fs.dev`tally
    ensures Blamed(old(fs.dev.tally), fs.dev.tally, fs.lost, err)
    ensures !fs.lost ==> fs.Clean()
    ensures fs.lost ==> err == Io
    ensures err in {NoError, BadFs, Io} && (err == BadFs ==> forall any :: !IsChain(fs.Links(), dir, any))
    ensures err == NoError && empty ==>
              exists chain :: IsChain(fs.Links(), dir, chain) && ChainEmpty(fs.g, fs.dev.sectors, chain)
    ensures err == NoError && !empty ==> exists t: nat :: Occupies(fs.g, fs.dev.sectors, fs.Links(), dir, t)
  {
    hide Represents, Yields, After, Call, Next, IsChain, FatOf, FatOk, Walk, ClusterOnlyDots;
    ghost var fat := fs.Links();
    var w := Start(dir);
    ghost var t := 0;
    Begin(fat, dir);
    empty := true;
    while empty
      invariant fs.Clean() && fs.dev.tally == old(fs.dev.tally)
      invariant Yields(fat, dir, t) && w == After(fat, dir, t)
      invariant empty ==> ChainEmpty(fs.g, fs.dev.sectors, Prefix(fat, dir, t))
      invariant !empty ==> t > 0 && Occupies(fs.g, fs.dev.sectors, fat, dir, t - 1)
      decreases empty, fs.g.clusterCount - t
    {
      Advance(fat, dir, t);
      EndIsChain(fat, dir, t);
      var r;
      r, w := fs.NextCluster(w);
      if r.Failure? {
        return r.error, false;
      }
      if r.value == 0 {
        return NoError, empty;
      }
      YieldIsLast(fat, dir, t);
      assert Prefix(fat, dir, t + 1) == Prefix(fat, dir, t) + [r.value];
      t := t + 1;
      err, empty := ClusterEmpty(fs, r.value);
      if err != NoError {
        return err, false;
      }
    }
    assert Occupies(fs.g, fs.dev.sectors, fs.Links(), dir, t - 1);
    return NoError, empty;
  }

  /** A directory is removed only if its whole chain is well formed and holds nothing but
      the dot entries. */
  method Rmdir(fs: FatInfo, parent: nat, wanted: DirEntry -> bool) returns (err: Error, ghost e: DirEntry, ghost chain: seq<nat>)
    requires fs.Clean()
    modifies fs, fs.dev
    ensures err in {NoError, NotFound, NotEmpty, Invalid, BadFs, Io}
    ensures err == Invalid ==>
              && fs.dev.sectors == old(fs.dev.sectors) && fs.entries == old(fs.entries)
              && Finds(fs.g, fs.dev.sectors, fs.Links(), parent, wanted, e) && !IsDirectory(e)
    ensures Blamed(old(fs.dev.tally), fs.dev.tally, fs.lost, err)
    ensures err == NoError ==>
              && fs.Clean() && Finds(fs.g, old(fs.dev.sectors), old(fs.Links()), parent, wanted, e) && IsDirectory(e)
              && IsChain(old(fs.Links()), ClusterOf(e), chain) && ChainEmpty(fs.g, old(fs.dev.sectors), chain)
              && FreedUpTo(old(fs.entries), fs.entries, chain, |chain|)
              && EntryRemoved(fs.g, old(fs.dev.sectors), fs.dev.sectors, fs.Links(), parent, wanted)
    ensures err == NotEmpty ==>
              && fs.dev.sectors == old(fs.dev.sectors) && fs.entries == old(fs.entries)
              && Finds(fs.g, fs.dev.sectors, fs.Links(), parent, wanted, e)
              && exists t: nat :: Occupies(fs.g, fs.dev.sectors, fs.Links(), ClusterOf(e), t)
    ensures fs.lost ==> SameData(fs.g, old(fs.dev.sectors), fs.dev.sectors)
    ensures err in {NotFound, BadFs} || (err == Io && !fs.lost) ==>
              RemoveFailed(fs.g, old(fs.dev.sectors), fs.dev.sectors, old(fs.entries), fs.entries, parent, wanted, e, err)
  {
    hide Represents, FatOf, FirstMatch, Absent, FirstDeleted, ChainEmpty, Occupies, FreedUpTo, EntryAt, IsDirectory, ClusterOf, IsChain, RemoveFailed;
    e, chain := seq(32, _ => 0), [];
    var c, k, j, sector;
    err, c, k, j, sector := Locate(fs, parent, wanted);
    assert !fs.lost ==> fs.Links() == old(fs.Links());
    if err != NoError {
      if !fs.lost {
        FailedEarly(fs.g, fs.dev.sectors, fs.entries, parent, wanted, e, err);
      }
      return;
    }
    var entry := EntryAt(sector, j);
    e := entry;
    assert Finds(fs.g, fs.dev.sectors, fs.Links(), parent, wanted, e);
    if !IsDirectory(entry) {
      return Invalid, e, chain;
    }
    var dir := ClusterOf(entry);
    var empty;
    err, empty := DirectoryEmpty(fs, dir);
    assert !fs.lost ==> fs.Links() == old(fs.Links());
    if err != NoError {
      if !fs.lost {
        FailedEarly(fs.g, fs.dev.sectors, fs.entries, parent, wanted, e, err);
      }
      return;
    }
    if !empty {
      return NotEmpty, e, chain;
    }
    ghost var fat := fs.Links();
    err, chain := FreeAndRemove(fs, parent, wanted, dir, e);
    if err == NoError {
      ghost var tested :| IsChain(fat, dir, tested) && ChainEmpty(fs.g, old(fs.dev.sectors), tested);
      ChainUnique(fat, dir, chain, tested);
    }
  }
}
