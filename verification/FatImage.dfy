/** FAT sectors as bytes, and the FAT a driver sees through its one-sector cache. */
module FatImage {
  import opened Bytes
  import opened FatChain
  import opened FatGeometry

  type Sector = s: seq<Byte> | |s| == 512 witness seq(512, _ => 0)

  /** The sectors of the device a volume lies on. */
  type Disk = seq<Sector>

  const INVALID_SECTOR := 0xFFFF_FFFF

  // ---- Little-endian words in a sector ----

  lemma Digits(v: nat)
    requires v < U32
    ensures v / 0x100_0000 < 0x100
    ensures LittleEndian(v % 0x100, v / 0x100 % 0x100, v / 0x1_0000 % 0x100, v / 0x100_0000) == v
  {
    assert v / 0x1_0000 == v / 0x100 / 0x100;
    assert v / 0x100_0000 == v / 0x1_0000 / 0x100;
  }

  function Word(s: Sector, w: nat): (v: nat)
    requires w < 128
    ensures v < U32
  {
    LittleEndian(s[4 * w], s[4 * w + 1], s[4 * w + 2], s[4 * w + 3])
  }

  function SetWord(s: Sector, w: nat, v: nat): (t: Sector)
    requires w < 128 && v < U32
    ensures Word(t, w) == v
    ensures forall i :: 0 <= i < 512 && !(4 * w <= i < 4 * w + 4) ==> t[i] == s[i]
  {
    Digits(v);
    s[4 * w := v % 0x100][4 * w + 1 := v / 0x100 % 0x100][4 * w + 2 := v / 0x1_0000 % 0x100][4 * w + 3 := v / 0x100_0000]
  }

  /** The new word keeps the four reserved top bits of the old one. */
  function Merge(was: nat, value: nat): nat {
    was / 0x1000_0000 * 0x1000_0000 + value % 0x1000_0000
  }

  lemma MergeParts(was: nat, value: nat)
    ensures Merge(was, value) % 0x1000_0000 == value % 0x1000_0000
    ensures Merge(was, value) / 0x1000_0000 == was / 0x1000_0000
    ensures was < U32 ==> Merge(was, value) < U32
  {
  }

  // ---- The FAT behind the cache ----

  /** Sector `j` of the FAT: the cached copy if it is the buffered one, else the first copy on disk. */
  ghost function Logical(g: Layout, disk: Disk, buf: Sector, at: nat, j: nat): Sector
    requires |disk| == g.blocks && j < g.fatSectors
  {
    if at == g.reserved + j then buf else disk[FatLba(g, 0, j)]
  }

  /** All entries of the FAT area as 32-bit words. */
  ghost function Raw(g: Layout, disk: Disk, buf: Sector, at: nat): (raw: seq<nat>)
    requires |disk| == g.blocks
    ensures |raw| == g.fatSectors * 128
    ensures forall c :: 0 <= c < |raw| ==> raw[c] == Word(Logical(g, disk, buf, at, c / 128), c % 128)
    ensures forall c :: 0 <= c < |raw| ==> raw[c] < U32
  {
    seq(g.fatSectors * 128, c requires 0 <= c < g.fatSectors * 128 => Word(Logical(g, disk, buf, at, c / 128), c % 128))
  }

  /** The entries of FAT copy `i` on disk, with no cache. */
  ghost function OnDisk(g: Layout, disk: Disk, i: nat): (raw: seq<nat>)
    requires |disk| == g.blocks && i < g.fatCount
    ensures |raw| == g.fatSectors * 128
  {
    seq(g.fatSectors * 128, c requires 0 <= c < g.fatSectors * 128 =>
      Word(disk[FatLba(g, i, c / 128)], c % 128))
  }

  /** Every copy on disk holds the logical sector, except a buffered one not yet written back. */
  ghost predicate Coherent(g: Layout, disk: Disk, buf: Sector, at: nat, dirty: bool)
    requires |disk| == g.blocks
  {
    forall i, j {:trigger FatLba(g, i, j)} :: 0 <= i < g.fatCount && 0 <= j < g.fatSectors && !(dirty && at == g.reserved + j) ==>
      disk[FatLba(g, i, j)] == Logical(g, disk, buf, at, j)
  }

  /** Cache and disk together hold the FAT `entries`. */
  ghost predicate Represents(g: Layout, disk: Disk, buf: Sector, at: nat, dirty: bool, entries: seq<nat>)
    requires |disk| == g.blocks
  {
    Coherent(g, disk, buf, at, dirty) && entries == Raw(g, disk, buf, at)
  }

  /** Fetching sector `k` over the unwritten sector `j` drops that: the driver then sees the first copy
      on disk, which is the FAT it had exactly if the words of sector `j` had got there. */
  lemma DroppedSector(g: Layout, disk: Disk, buf: Sector, j: nat, k: nat, entries: seq<nat>)
    requires |disk| == g.blocks && j < g.fatSectors && k < g.fatSectors && j != k && 0 < g.fatCount
    requires Represents(g, disk, buf, g.reserved + j, true, entries)
    ensures var seen := Raw(g, disk, disk[FatLba(g, 0, k)], g.reserved + k);
      && seen == OnDisk(g, disk, 0)
      && (seen == entries <==> forall w :: 0 <= w < 128 ==> Word(disk[FatLba(g, 0, j)], w) == Word(buf, w))
  {
    hide Word;
    var seen := Raw(g, disk, disk[FatLba(g, 0, k)], g.reserved + k);
    assert seen == OnDisk(g, disk, 0);
    if seen == entries {
      forall w | 0 <= w < 128
        ensures Word(disk[FatLba(g, 0, j)], w) == Word(buf, w)
      {
        assert seen[128 * j + w] == entries[128 * j + w];
      }
    }
  }

  /** A read that fails leaves anything in the cache, under the number of the sector that was there: the
      driver goes on seeing the FAT exactly if the words happen to be the same. */
  lemma SpoiledSector(g: Layout, disk: Disk, buf: Sector, junk: Sector, j: nat, entries: seq<nat>)
    requires |disk| == g.blocks && j < g.fatSectors && Represents(g, disk, buf, g.reserved + j, false, entries)
    ensures Raw(g, disk, junk, g.reserved + j) == entries <==> forall w :: 0 <= w < 128 ==> Word(junk, w) == Word(buf, w)
  {
    hide Word;
    var seen := Raw(g, disk, junk, g.reserved + j);
    if seen == entries {
      forall w | 0 <= w < 128
        ensures Word(junk, w) == Word(buf, w)
      {
        assert seen[128 * j + w] == entries[128 * j + w];
      }
    }
  }

  /** Every copy of sector `j` on disk holds `buf`. */
  ghost predicate CopiesHold(g: Layout, disk: Disk, j: nat, buf: Sector)
    requires |disk| == g.blocks && j < g.fatSectors
  {
    forall i {:trigger FatLba(g, i, j)} :: 0 <= i < g.fatCount ==> disk[FatLba(g, i, j)] == buf
  }

  /** The 28-bit link values of the volume's clusters. */
  ghost function FatOf(g: Layout, raw: seq<nat>): (fat: Fat)
    requires g.clusterCount + 2 <= |raw|
    ensures |fat| == g.clusterCount + 2
    ensures forall c :: 0 <= c < |fat| ==> fat[c] == raw[c] % 0x1000_0000
  {
    seq(g.clusterCount + 2, c requires 0 <= c < g.clusterCount + 2 => raw[c] % 0x1000_0000)
  }

  /** A FAT with the entry of `c` replaced, as the driver stores it. */
  function Stored(raw: seq<nat>, c: nat, value: nat): (r: seq<nat>)
    requires c < |raw|
    ensures |r| == |raw|
  {
    raw[c := Merge(raw[c], value)]
  }

  lemma StoredFat(g: Layout, raw: seq<nat>, c: nat, value: nat)
    requires g.clusterCount + 2 <= |raw| && ClusterIn(g, c)
    ensures FatOf(g, Stored(raw, c, value)) == FatOf(g, raw)[c := value % 0x1000_0000]
    ensures forall k :: 0 <= k < |raw| ==> Stored(raw, c, value)[k] / 0x1000_0000 == raw[k] / 0x1000_0000
  {
    MergeParts(raw[c], value);
  }

  lemma FatOfOk(g: Layout, raw: seq<nat>)
    requires |raw| == g.fatSectors * 128
    ensures FatOk(FatOf(g, raw))
  {
  }

  /** Reading another sector into a clean cache does not change the FAT. */
  lemma LoadKeeps(g: Layout, disk: Disk, buf: Sector, at: nat, j: nat, entries: seq<nat>)
    requires |disk| == g.blocks && j < g.fatSectors && Represents(g, disk, buf, at, false, entries)
    ensures Represents(g, disk, disk[FatLba(g, 0, j)], g.reserved + j, false, entries)
  {
    var loaded := disk[FatLba(g, 0, j)];
    forall k | 0 <= k < g.fatSectors
      ensures Logical(g, disk, loaded, g.reserved + j, k) == Logical(g, disk, buf, at, k)
    {
      assert disk[FatLba(g, 0, k)] == Logical(g, disk, buf, at, k);
    }
    assert Raw(g, disk, loaded, g.reserved + j) == Raw(g, disk, buf, at);
  }

  /** A buffered sector holds its part of the FAT. */
  lemma BufferedEntry(g: Layout, disk: Disk, buf: Sector, dirty: bool, entries: seq<nat>, c: nat)
    requires |disk| == g.blocks && ClusterIn(g, c)
    requires Represents(g, disk, buf, EntrySector(g, c), dirty, entries)
    ensures c < |entries| && EntryWord32(c) < 128 && Word(buf, EntryWord32(c)) == entries[c]
  {
    EntryAddress(g, c);
  }

  /** Storing a word in the buffered sector changes that entry of the FAT and no other. */
  lemma StoreRaw(g: Layout, disk: Disk, buf: Sector, c: nat, v: nat)
    requires |disk| == g.blocks && c < g.fatSectors * 128 && v < U32
    ensures Raw(g, disk, SetWord(buf, c % 128, v), g.reserved + c / 128)
         == Raw(g, disk, buf, g.reserved + c / 128)[c := v]
  {
    var at := g.reserved + c / 128;
    var after := Raw(g, disk, SetWord(buf, c % 128, v), at);
    var before := Raw(g, disk, buf, at);
    forall k | 0 <= k < |before|
      ensures after[k] == before[c := v][k]
    {
      if k / 128 == c / 128 && k != c {
        assert k % 128 != c % 128;
        assert Word(SetWord(buf, c % 128, v), k % 128) == Word(buf, k % 128);
      }
    }
  }

  /** `later` differs from `disk` at most in the FAT copies of the buffered sector and outside the FATs. */
  ghost predicate SameOtherFatSectors(g: Layout, disk: Disk, later: Disk, at: nat)
    requires |disk| == |later| == g.blocks
  {
    forall i, j {:trigger FatLba(g, i, j)} :: 0 <= i < g.fatCount && 0 <= j < g.fatSectors && at != g.reserved + j ==>
      later[FatLba(g, i, j)] == disk[FatLba(g, i, j)]
  }

  /** The buffered sector with the entry of `c` replaced. */
  function PutEntry(buf: Sector, c: nat, value: nat): Sector
    requires EntryWord32(c) < 128
  {
    MergeParts(Word(buf, EntryWord32(c)), value);
    SetWord(buf, EntryWord32(c), Merge(Word(buf, EntryWord32(c)), value))
  }

  /** Storing an entry in its buffered sector makes the cache dirty and changes the FAT there only. */
  lemma StoreStep(g: Layout, disk: Disk, buf: Sector, c: nat, value: nat, dirty: bool, entries: seq<nat>)
    requires |disk| == g.blocks && ClusterIn(g, c)
    requires Represents(g, disk, buf, EntrySector(g, c), dirty, entries)
    ensures c < |entries| && EntryWord32(c) < 128
    ensures Represents(g, disk, PutEntry(buf, c, value), EntrySector(g, c), true, Stored(entries, c, value))
  {
    EntryAddress(g, c);
    MergeParts(Word(buf, c % 128), value);
    StoreRaw(g, disk, buf, c, Merge(Word(buf, c % 128), value));
    var at := EntrySector(g, c);
    forall i, j {:trigger FatLba(g, i, j)} | 0 <= i < g.fatCount && 0 <= j < g.fatSectors && at != g.reserved + j
      ensures disk[FatLba(g, i, j)] == Logical(g, disk, PutEntry(buf, c, value), at, j)
    {
      assert disk[FatLba(g, i, j)] == Logical(g, disk, buf, at, j);
    }
  }

  /** Writing the buffered sector to every copy makes the cache clean; writing it to some
      copies, or garbling some, does not hurt a dirty one. */
  lemma WriteBack(g: Layout, disk: Disk, later: Disk, buf: Sector, at: nat, entries: seq<nat>)
    requires |disk| == |later| == g.blocks && SameOtherFatSectors(g, disk, later, at)
    requires Represents(g, disk, buf, at, true, entries)
    ensures Represents(g, later, buf, at, true, entries)
    ensures g.reserved <= at < g.reserved + g.fatSectors && CopiesHold(g, later, at - g.reserved, buf) ==>
              Represents(g, later, buf, at, false, entries)
  {
    DiskChangeKeepsRaw(g, disk, later, buf, at);
    forall i, j {:trigger FatLba(g, i, j)} | 0 <= i < g.fatCount && 0 <= j < g.fatSectors && at != g.reserved + j
      ensures later[FatLba(g, i, j)] == Logical(g, later, buf, at, j)
    {
      assert disk[FatLba(g, i, j)] == Logical(g, disk, buf, at, j);
      assert later[FatLba(g, 0, j)] == disk[FatLba(g, 0, j)];
    }
  }

  /** Writes outside the FAT copies change neither the FAT nor the state of the cache. */
  lemma DataChangeKeeps(g: Layout, disk: Disk, later: Disk, buf: Sector, at: nat, dirty: bool, entries: seq<nat>)
    requires |disk| == |later| == g.blocks
    requires forall lba :: 0 <= lba < |disk| && IsFatLba(g, lba) ==> later[lba] == disk[lba]
    requires Represents(g, disk, buf, at, dirty, entries)
    ensures Represents(g, later, buf, at, dirty, entries)
  {
    DiskChangeKeepsRaw(g, disk, later, buf, at);
    forall i, j {:trigger FatLba(g, i, j)} | 0 <= i < g.fatCount && 0 <= j < g.fatSectors
      ensures later[FatLba(g, i, j)] == disk[FatLba(g, i, j)]
      ensures Logical(g, later, buf, at, j) == Logical(g, disk, buf, at, j)
    {
    }
  }

  lemma DiskChangeKeepsRaw(g: Layout, disk: Disk, later: Disk, buf: Sector, at: nat)
    requires |disk| == |later| == g.blocks && SameOtherFatSectors(g, disk, later, at)
    ensures Raw(g, later, buf, at) == Raw(g, disk, buf, at)
  {
    forall j | 0 <= j < g.fatSectors
      ensures Logical(g, later, buf, at, j) == Logical(g, disk, buf, at, j)
    {
      }
  }

  /** With a clean cache every FAT copy on disk is the FAT the driver sees. */
  lemma CleanCopies(g: Layout, disk: Disk, buf: Sector, at: nat, i: nat)
    requires |disk| == g.blocks && Coherent(g, disk, buf, at, false) && i < g.fatCount
    ensures OnDisk(g, disk, i) == Raw(g, disk, buf, at)
  {
    forall c | 0 <= c < g.fatSectors * 128
      ensures OnDisk(g, disk, i)[c] == Raw(g, disk, buf, at)[c]
    {
      assert disk[FatLba(g, i, c / 128)] == Logical(g, disk, buf, at, c / 128);
    }
  }
}
