/** The layout of a FAT32 volume: what `mount` checks and what those checks buy. */
module FatGeometry {
  import opened Errors
  import opened FatChain

  // A sector has 512 bytes, that is 128 FAT entries.

  /** The BIOS parameter block fields that `mount` reads. */
  datatype BootSector = BootSector(
    signature: nat, bootSignature: nat,
    bytesPerSector: nat, sectorsPerCluster: nat, reservedSectors: nat, numFats: nat,
    rootEntries: nat, fatSize16: nat, totalSectors32: nat, fatSize32: nat,
    extFlags: nat, fsVersion: nat, rootCluster: nat)

  /** The on-disk field widths. */
  ghost predicate Encodable(bs: BootSector) {
    && bs.bytesPerSector < 0x1_0000 && bs.sectorsPerCluster < 0x100 && bs.reservedSectors < 0x1_0000
    && bs.numFats < 0x100 && bs.totalSectors32 < U32 && bs.fatSize32 < U32 && bs.rootCluster < U32
  }

  /** The driver's state after `mount`; sector numbers are relative to the partition. */
  datatype Geometry = Geometry(
    blocks: nat, partition: nat, total: nat, sectorsPerCluster: nat, reserved: nat, fatCount: nat,
    fatSectors: nat, dataStart: nat, clusterCount: nat, root: nat)

  /** The sectors of `count` clusters. */
  function Span(count: nat, sectorsPerCluster: nat): nat {
    if count == 0 then 0 else Span(count - 1, sectorsPerCluster) + sectorsPerCluster
  }

  lemma {:induction false} SpanIsProduct(count: nat, sectorsPerCluster: nat)
    ensures Span(count, sectorsPerCluster) == count * sectorsPerCluster
  {
    if count > 0 {
      SpanIsProduct(count - 1, sectorsPerCluster);
      assert count * sectorsPerCluster == (count - 1) * sectorsPerCluster + sectorsPerCluster;
    }
  }

  lemma {:induction false} SpanNext(a: nat, b: nat, k: nat)
    requires a < b
    ensures Span(a, k) + k <= Span(b, k)
  {
    if a < b - 1 {
      SpanNext(a, b - 1, k);
    }
  }

  /** What every later computation relies on: FAT copies and clusters lie inside the
      device without overlap, and every cluster has an entry in every copy. */
  ghost predicate GeometryOk(g: Geometry) {
    && g.blocks < U32
    && g.reserved >= 1 && 1 <= g.fatCount <= 2 && g.fatSectors >= 1
    && 1 <= g.sectorsPerCluster <= 128
    && g.dataStart == g.reserved + (if g.fatCount == 1 then g.fatSectors else 2 * g.fatSectors)
    && 1 <= g.clusterCount && g.clusterCount + 2 <= RESERVED_MIN
    && g.clusterCount + 2 <= g.fatSectors * 128
    && g.partition + g.dataStart + Span(g.clusterCount, g.sectorsPerCluster) <= g.partition + g.total <= g.blocks
    && 2 <= g.root < g.clusterCount + 2
  }

  /** The validation and `do_init_state`, with the 32-bit arithmetic of the latter. */
  function Mount(bs: BootSector, partition: nat, blocks: nat): (r: Result<Geometry>) {
    if !(bs.signature == 0xAA55 && bs.bootSignature == 0x29 && bs.totalSectors32 != 0) then Failure(BadFs)
    else if bs.bytesPerSector == 0 then Failure(BadFs)
    else if bs.bytesPerSector !in {512, 1024, 2048, 4096} then Failure(BadFs)
    else if bs.bytesPerSector != 512 then Failure(NotSupported)
    else if bs.sectorsPerCluster !in {1, 2, 4, 8, 16, 32, 64, 128} then Failure(BadFs)
    else if bs.reservedSectors == 0 || bs.numFats == 0 || bs.numFats > 2 || bs.fatSize32 == 0
            || bs.rootEntries != 0 || bs.fatSize16 != 0 then Failure(BadFs)
    else if bs.fsVersion != 0 || (bs.extFlags / 0x80) % 2 != 0 then Failure(NotSupported)
    else
      var dataStart := bs.reservedSectors + bs.numFats * bs.fatSize32;
      if dataStart >= bs.totalSectors32 then Failure(BadFs)
      else if partition + bs.totalSectors32 > blocks then Failure(BadFs)
      else
        var clusters := (bs.totalSectors32 - dataStart) / bs.sectorsPerCluster;
        if clusters == 0 || clusters + 2 > RESERVED_MIN then Failure(BadFs)
        else if (clusters + 2) * 4 > bs.fatSize32 * bs.bytesPerSector then Failure(BadFs)
        else if bs.rootCluster < 2 || bs.rootCluster >= clusters + 2 then Failure(BadFs)
        else
          var dataStart32 := (bs.reservedSectors + (bs.numFats * bs.fatSize32) % 0x1_0000_0000) % 0x1_0000_0000;
          var dataSectors32 := (bs.totalSectors32 - dataStart32) % 0x1_0000_0000;
          Success(Geometry(blocks, partition, bs.totalSectors32, bs.sectorsPerCluster, bs.reservedSectors,
                           bs.numFats, bs.fatSize32, dataStart32,
                           dataSectors32 / bs.sectorsPerCluster, bs.rootCluster))
  }

  lemma OneOrTwo(n: nat, x: nat)
    requires 1 <= n <= 2
    ensures n * x == if n == 1 then x else 2 * x
  {
  }

  // ---- Which volumes are accepted: the FAT32 volumes of the Microsoft FAT specification, version 1.03, with
  //      512-byte sectors and all FAT copies in use ----

  /** The boot sector of a FAT volume with a 32-bit sector count. */
  ghost predicate Marked(bs: BootSector) {
    bs.signature == 0xAA55 && bs.bootSignature == 0x29 && bs.totalSectors32 > 0
  }

  /** A power of two from `low` to `high`. */
  ghost predicate PowerIn(x: nat, low: nat, high: nat) {
    exists k: nat :: low <= k <= high && x == Pow2(k)
  }

  /** One or two FATs of FAT32 size behind the reserved sectors, and no root directory of fixed size. */
  ghost predicate Counts(bs: BootSector) {
    bs.reservedSectors > 0 && 1 <= bs.numFats <= 2 && bs.fatSize32 > 0 && bs.rootEntries == 0 && bs.fatSize16 == 0
  }

  /** Version 0, and the FAT copies are kept the same: bit 7 of the flags is clear. */
  ghost predicate Mirrored(bs: BootSector) {
    bs.fsVersion == 0 && bs.extFlags % 0x100 < 0x80
  }

  /** First sector of the data area. */
  ghost function DataStart(bs: BootSector): nat {
    bs.reservedSectors + bs.numFats * bs.fatSize32
  }

  /** The volume lies in the device, has `n` clusters and no room for more, an entry for each in the FAT, and
      the root directory in one of them. */
  ghost predicate Fits(bs: BootSector, partition: nat, blocks: nat, n: nat) {
    && partition + bs.totalSectors32 <= blocks
    && 1 <= n && n + 2 <= 0x0FFF_FFF0 && 4 * (n + 2) <= 512 * bs.fatSize32 && 2 <= bs.rootCluster < n + 2
    && DataStart(bs) + n * bs.sectorsPerCluster <= bs.totalSectors32 < DataStart(bs) + (n + 1) * bs.sectorsPerCluster
  }

  ghost predicate IsVolume(bs: BootSector, partition: nat, blocks: nat) {
    Marked(bs) && bs.bytesPerSector == 512 && PowerIn(bs.sectorsPerCluster, 0, 7) && Counts(bs) && Mirrored(bs)
    && exists n: nat :: Fits(bs, partition, blocks, n)
  }

  lemma ClusterSizes(x: nat)
    ensures x in {1, 2, 4, 8, 16, 32, 64, 128} <==> PowerIn(x, 0, 7)
    ensures x in {512, 1024, 2048, 4096} <==> PowerIn(x, 9, 12)
  {
    assert Pow2(0) == 1 && Pow2(1) == 2 && Pow2(2) == 4 && Pow2(3) == 8 && Pow2(4) == 16 && Pow2(5) == 32 && Pow2(6) == 64 && Pow2(7) == 128;
    assert Pow2(8) == 256 && Pow2(9) == 512 && Pow2(10) == 1024 && Pow2(11) == 2048 && Pow2(12) == 4096;
  }

  lemma GreatestCount(x: nat, k: nat, n: nat)
    requires k > 0
    ensures n == x / k <==> n * k <= x < (n + 1) * k
  {
    var q := x / k;
    assert q * k <= x < q * k + k;
    if n < q {
      Monotone(n + 1, q, k);
    } else if n > q {
      Monotone(q + 1, n, k);
      assert (q + 1) * k == q * k + k;
    } else {
      assert (n + 1) * k == n * k + k;
    }
  }

  lemma Monotone(a: nat, b: nat, k: nat)
    requires a <= b
    ensures a * k <= b * k
  {
  }

  /** The geometry is that of the boot sector and the partition, with as many clusters as there is room for. */
  lemma MountedAsGiven(bs: BootSector, partition: nat, blocks: nat)
    requires Encodable(bs) && blocks < U32 && Mount(bs, partition, blocks).Success?
    ensures var g := Mount(bs, partition, blocks).value;
      && g.blocks == blocks && g.partition == partition && g.total == bs.totalSectors32 && g.sectorsPerCluster == bs.sectorsPerCluster
      && g.reserved == bs.reservedSectors && g.fatCount == bs.numFats && g.fatSectors == bs.fatSize32 && g.root == bs.rootCluster
      && g.dataStart == DataStart(bs) && Fits(bs, partition, blocks, g.clusterCount)
  {
    hide Pow2;
    var g, p := Mount(bs, partition, blocks).value, bs.numFats * bs.fatSize32;
    Unwrapped(bs.reservedSectors, p, bs.totalSectors32);
    assert g.dataStart == bs.reservedSectors + p;
    var rest := bs.totalSectors32 - g.dataStart;
    assert g.clusterCount == rest / bs.sectorsPerCluster;
    GreatestCount(rest, bs.sectorsPerCluster, g.clusterCount);
  }

  lemma Unwrapped(r: nat, p: nat, total: nat)
    requires r + p < total < U32
    ensures (r + p % 0x1_0000_0000) % 0x1_0000_0000 == r + p && (total - (r + p)) % 0x1_0000_0000 == total - (r + p)
  {
  }

  /** `mount` accepts exactly these volumes. */
  lemma MountAccepts(bs: BootSector, partition: nat, blocks: nat)
    requires Encodable(bs) && blocks < U32
    ensures Mount(bs, partition, blocks).Success? <==> IsVolume(bs, partition, blocks)
  {
    hide Pow2, PowerIn;
    ClusterSizes(bs.sectorsPerCluster);
    if Mount(bs, partition, blocks).Success? {
      MountedAsGiven(bs, partition, blocks);
    }
    if IsVolume(bs, partition, blocks) {
      var n: nat :| Fits(bs, partition, blocks, n);
      Monotone(1, n, bs.sectorsPerCluster);
      var rest := bs.totalSectors32 - DataStart(bs);
      GreatestCount(rest, bs.sectorsPerCluster, n);
      assert n == rest / bs.sectorsPerCluster;
    }
  }

  /** NotSupported is for volumes of another sector size, version or FAT use; all else is BadFs. */
  lemma MountRefuses(bs: BootSector, partition: nat, blocks: nat)
    ensures Mount(bs, partition, blocks) == Failure(NotSupported) <==>
            && Marked(bs) && PowerIn(bs.bytesPerSector, 9, 12)
            && (bs.bytesPerSector != 512 || (PowerIn(bs.sectorsPerCluster, 0, 7) && Counts(bs) && !Mirrored(bs)))
    ensures Mount(bs, partition, blocks).Failure? ==> Mount(bs, partition, blocks).error in {NotSupported, BadFs}
  {
    hide Pow2, PowerIn;
    ClusterSizes(bs.sectorsPerCluster);
    ClusterSizes(bs.bytesPerSector);
  }

  /** Every volume `mount` accepts is laid out soundly: no 32-bit step of the set-up wrapped. */
  lemma MountedIsSound(bs: BootSector, partition: nat, blocks: nat)
    requires Encodable(bs) && blocks < U32
    requires Mount(bs, partition, blocks).Success?
    ensures GeometryOk(Mount(bs, partition, blocks).value)
  {
    hide Mount, PowerIn;
    var g := Mount(bs, partition, blocks).value;
    MountedAsGiven(bs, partition, blocks);
    MountAccepts(bs, partition, blocks);
    ClusterSizes(bs.sectorsPerCluster);
    OneOrTwo(bs.numFats, bs.fatSize32);
    SpanIsProduct(g.clusterCount, g.sectorsPerCluster);
  }

  /** A geometry that `mount` accepted. */
  type Layout = g: Geometry | GeometryOk(g) ghost witness Geometry(10, 0, 3, 1, 1, 1, 1, 2, 1, 2)

  // ---- Where things are ----

  predicate ClusterIn(g: Geometry, c: nat) {
    2 <= c < g.clusterCount + 2
  }

  predicate IsFatLba(g: Geometry, lba: nat) {
    g.partition + g.reserved <= lba < g.partition + g.dataStart
  }

  /** Device address of sector `j` of FAT copy `i`. */
  function FatLba(g: Layout, i: nat, j: nat): (lba: nat)
    requires i < g.fatCount && j < g.fatSectors
    ensures lba < g.blocks && IsFatLba(g, lba)
  {
    g.partition + g.reserved + (if i == 0 then 0 else g.fatSectors) + j
  }

  /** Device address of sector `k` of cluster `c`. */
  function DataLba(g: Layout, c: nat, k: nat): (lba: nat)
    requires ClusterIn(g, c) && k < g.sectorsPerCluster
    ensures lba < g.blocks && !IsFatLba(g, lba)
  {
    ClusterFits(g, c);
    g.partition + g.dataStart + Span(c - 2, g.sectorsPerCluster) + k
  }

  /** `lba` is an address of cluster `c`. */
  predicate IsClusterLba(g: Layout, c: nat, lba: nat)
    requires ClusterIn(g, c)
  {
    DataLba(g, c, 0) <= lba < DataLba(g, c, 0) + g.sectorsPerCluster
  }

  /** The sector, relative to the partition, of the first copy of the entry of `c`. */
  function EntrySector(g: Layout, c: nat): (s: nat)
    requires ClusterIn(g, c)
    ensures g.reserved <= s < g.reserved + g.fatSectors
  {
    g.reserved + c / 128
  }

  // The same addresses as the driver computes them, in 32-bit arithmetic.

  function EntrySector32(g: Geometry, c: nat): nat {
    (g.reserved + ((c * 4) % 0x1_0000_0000) / 512) % 0x1_0000_0000
  }

  /** The index of the entry's word, that is its byte offset over four. */
  function EntryWord32(c: nat): nat {
    ((c * 4) % 0x1_0000_0000) % 512 / 4
  }

  function FatLba32(g: Geometry, sector: nat, i: nat): nat {
    (g.partition + sector + (i * g.fatSectors) % 0x1_0000_0000) % 0x1_0000_0000
  }

  function DataLba32(g: Geometry, c: nat, k: nat): nat {
    (g.partition + (if c < 2 then 0 else (g.dataStart + ((c - 2) * g.sectorsPerCluster) % 0x1_0000_0000) % 0x1_0000_0000) + k)
    % 0x1_0000_0000
  }

  lemma NoWrap(x: nat)
    requires x < U32
    ensures x % 0x1_0000_0000 == x
  {
  }

  /** The last sector of a cluster is still inside the volume. */
  lemma ClusterFits(g: Geometry, c: nat)
    requires GeometryOk(g) && ClusterIn(g, c)
    ensures g.partition + g.dataStart + Span(c - 2, g.sectorsPerCluster) + g.sectorsPerCluster <= g.blocks
  {
    SpanNext(c - 2, g.clusterCount, g.sectorsPerCluster);
  }

  /** The driver's cluster addresses never wrap. */
  lemma ClusterAddress(g: Layout, c: nat, k: nat)
    requires ClusterIn(g, c) && k < g.sectorsPerCluster
    ensures DataLba32(g, c, k) == DataLba(g, c, k)
    ensures IsClusterLba(g, c, DataLba(g, c, k))
  {
    ClusterFits(g, c);
    SpanIsProduct(c - 2, g.sectorsPerCluster);
    var first := Span(c - 2, g.sectorsPerCluster);
    NoWrap(first);
    NoWrap(g.dataStart + first);
    NoWrap(g.partition + g.dataStart + first + k);
  }

  /** Different clusters occupy different sectors. */
  lemma ClustersDisjoint(g: Layout, c: nat, d: nat, lba: nat)
    requires ClusterIn(g, c) && ClusterIn(g, d) && c != d && IsClusterLba(g, c, lba)
    ensures !IsClusterLba(g, d, lba)
  {
    if c < d {
      SpanNext(c - 2, d - 2, g.sectorsPerCluster);
    } else {
      SpanNext(d - 2, c - 2, g.sectorsPerCluster);
    }
  }

  lemma WordPosition(c: nat)
    ensures (c * 4) / 512 == c / 128
    ensures (c * 4) % 512 == (c % 128) * 4
  {
  }

  /** The driver's entry addresses never wrap and stay inside their FAT copy. */
  lemma EntryAddress(g: Layout, c: nat)
    requires ClusterIn(g, c)
    ensures EntrySector32(g, c) == EntrySector(g, c)
    ensures EntryWord32(c) == c % 128
  {
    NoWrap(c * 4);
    WordPosition(c);
    NoWrap(g.reserved + c / 128);
  }

  lemma FatAddress(g: Layout, i: nat, j: nat)
    requires i < g.fatCount && j < g.fatSectors
    ensures FatLba32(g, g.reserved + j, i) == FatLba(g, i, j)
  {
    assert i == 0 || i == 1;
    NoWrap(i * g.fatSectors);
    NoWrap(FatLba(g, i, j));
  }
}
