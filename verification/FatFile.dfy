/** Reading and writing file contents through a cluster chain. */
module FatFile {
  import opened Errors
  import opened Bytes
  import opened FatChain
  import opened FatGeometry
  import opened FatImage
  import opened FatVolume
  import opened Sequences

  // ---- Where the bytes of a file are ----

  /** The cluster index and the offset in that cluster of byte `pos` of a chain. */
  function Locate(clusterBytes: nat, pos: nat): (r: (nat, nat))
    requires clusterBytes > 0
    ensures r.1 < clusterBytes
  {
    if pos < clusterBytes then (0, pos)
    else var (t, x) := Locate(clusterBytes, pos - clusterBytes); (t + 1, x)
  }

  lemma {:induction false} LocateAt(clusterBytes: nat, t: nat, x: nat)
    requires x < clusterBytes
    ensures Locate(clusterBytes, Span(t, clusterBytes) + x) == (t, x)
  {
    if t > 0 {
      LocateAt(clusterBytes, t - 1, x);
    }
  }

  /** The cluster and offset of byte `pos` of the chain from `start`. */
  function Address(fat: Fat, start: nat, clusterBytes: nat, pos: nat): (nat, nat)
    requires clusterBytes > 0
  {
    (Walk(fat, start, Locate(clusterBytes, pos).0), Locate(clusterBytes, pos).1)
  }

  /** Byte `x` of cluster `c` on disk. */
  ghost function ByteOf(g: Layout, disk: Disk, c: nat, x: nat): Byte
    requires |disk| == g.blocks && ClusterIn(g, c) && x < 512 * g.sectorsPerCluster
  {
    disk[DataLba(g, c, x / 512)][x % 512]
  }

  /** Byte `pos` of the chain from `start`, if it is on the volume. */
  ghost function ChainByte(g: Layout, disk: Disk, fat: Fat, start: nat, pos: nat): Option<Byte>
    requires |disk| == g.blocks
  {
    var (c, x) := Address(fat, start, 512 * g.sectorsPerCluster, pos);
    if ClusterIn(g, c) then Some(ByteOf(g, disk, c, x)) else None
  }

  /** The last of `n` bytes written at `offset` that went to byte `x` of cluster `c`. */
  function LastWriter(fat: Fat, start: nat, clusterBytes: nat, offset: nat, n: nat, c: nat, x: nat): (r: Option<nat>)
    requires clusterBytes > 0
    ensures r.Some? ==> r.value < n && Address(fat, start, clusterBytes, offset + r.value) == (c, x)
  {
    if n == 0 then None
    else if Address(fat, start, clusterBytes, offset + n - 1) == (c, x) then Some(n - 1)
    else LastWriter(fat, start, clusterBytes, offset, n - 1, c, x)
  }

  /** Writing into one cluster: `count` bytes from offset `off` of walk position `t` on. */
  lemma {:induction false} WriterStep(fat: Fat, start: nat, clusterBytes: nat, offset: nat, solved: nat, count: nat,
                                      t: nat, off: nat, c: nat, x: nat)
    requires off + count <= clusterBytes && clusterBytes > 0
    requires count > 0 ==> offset + solved == Span(t, clusterBytes) + off
    ensures LastWriter(fat, start, clusterBytes, offset, solved + count, c, x)
         == if c == Walk(fat, start, t) && off <= x < off + count then Some(solved + x - off)
            else LastWriter(fat, start, clusterBytes, offset, solved, c, x)
  {
    if count > 0 {
      WriterStep(fat, start, clusterBytes, offset, solved, count - 1, t, off, c, x);
      LocateAt(clusterBytes, t, off + count - 1);
    }
  }

  /** The disk after `n` bytes of `data` were written at `offset`: every byte of every cluster
      is the last one written there, or what it was. */
  ghost predicate Overwritten(g: Layout, before: Disk, after: Disk, fat: Fat, start: nat, offset: nat, data: seq<Byte>, n: nat)
    requires |before| == |after| == g.blocks && n <= |data|
  {
    forall c: nat, x: nat {:trigger ByteOf(g, after, c, x)} :: ClusterIn(g, c) && x < 512 * g.sectorsPerCluster ==>
      ByteOf(g, after, c, x) ==
      match LastWriter(fat, start, 512 * g.sectorsPerCluster, offset, n, c, x)
      case None => ByteOf(g, before, c, x)
      case Some(i) => data[i]
  }

  /** Nothing outside the clusters of the chain differs. */
  ghost predicate OnlyChain(g: Layout, before: Disk, after: Disk, fat: Fat, start: nat, t: nat)
    requires |before| == |after| == g.blocks
  {
    forall lba :: 0 <= lba < g.blocks && after[lba] != before[lba] ==>
      exists i :: 0 <= i < t && ClusterIn(g, Walk(fat, start, i)) && IsClusterLba(g, Walk(fat, start, i), lba)
  }

  /** What the directory entry of an open file says. */
  datatype FileEntry = FileEntry(cluster: nat, size: nat, isDirectory: bool)

  function Min(a: nat, b: nat): nat {
    if a < b then a else b
  }

  // ---- The transfer ----

  /** One cluster of a write: read it, replace a part, write it back. */
  method WritePart(fs: FatInfo, c: nat, off: nat, io: seq<Byte>, from: nat, count: nat) returns (err: Error)
    requires fs.Clean() && ClusterIn(fs.g, c)
    requires off + count <= 512 * fs.g.sectorsPerCluster && from + count <= |io|
    modifies fs.dev
    ensures Blamed(old(fs.dev.tally), fs.dev.tally, fs.lost, err)
    ensures |fs.dev.sectors| == fs.g.blocks
    ensures forall lba :: 0 <= lba < fs.g.blocks && !IsClusterLba(fs.g, c, lba) ==> fs.dev.sectors[lba] == old(fs.dev.sectors)[lba]
    ensures fs.Clean()
    ensures err == NoError || err == Io
    ensures err == NoError ==> forall x: nat {:trigger ByteOf(fs.g, fs.dev.sectors, c, x)} :: x < 512 * fs.g.sectorsPerCluster ==>
              ByteOf(fs.g, fs.dev.sectors, c, x) == if off <= x < off + count then io[from + x - off] else ByteOf(fs.g, old(fs.dev.sectors), c, x)
  {
    hide Represents;
    ClusterAddress(fs.g, c, 0);
    ClusterFits(fs.g, c);
    ghost var before := fs.dev.sectors;
    var buf;
    err, buf := fs.dev.ReadRun(DataLba32(fs.g, c, 0), fs.g.sectorsPerCluster);
    if err != NoError {
      return;
    }
    ghost var was := buf;
    buf := Spliced(buf, off, io[from..from + count]);
    err := fs.dev.WriteRun(DataLba32(fs.g, c, 0), buf, fs.g.sectorsPerCluster);
    DataChangeKeeps(fs.g, before, fs.dev.sectors, fs.buffer, fs.bufferSector, false, fs.entries);
    if err == NoError {
      forall x: nat {:trigger ByteOf(fs.g, fs.dev.sectors, c, x)} | x < 512 * fs.g.sectorsPerCluster
        ensures ByteOf(fs.g, fs.dev.sectors, c, x) == if off <= x < off + count then io[from + x - off] else ByteOf(fs.g, before, c, x)
      {
        SplicedAt(was, off, io[from..from + count], x);
        assert fs.dev.sectors[DataLba(fs.g, c, 0) + x / 512][x % 512] == buf[x];
      }
    }
  }

  /** One cluster of a read. */
  method ReadPart(fs: FatInfo, c: nat) returns (err: Error, buf: seq<Byte>)
    requires fs.Clean() && ClusterIn(fs.g, c)
    modifies fs.dev`script, fs.dev`tally
    ensures Blamed(old(fs.dev.tally), fs.dev.tally, fs.lost, err)
    ensures fs.Clean() && err in {NoError, Io}
    ensures |buf| == 512 * fs.g.sectorsPerCluster
    ensures err == NoError ==> forall x: nat {:trigger buf[x]} :: x < |buf| ==> buf[x] == ByteOf(fs.g, fs.dev.sectors, c, x)
  {
    hide Represents;
    ClusterAddress(fs.g, c, 0);
    ClusterFits(fs.g, c);
    err, buf := fs.dev.ReadRun(DataLba32(fs.g, c, 0), fs.g.sectorsPerCluster);
    if err != NoError {
    }
  }

  /** Position of the transfer: after `t` clusters with `solved` bytes moved and `off` bytes of
      the offset still to skip. */
  ghost predicate InStep(clusterBytes: nat, offset: nat, solved: nat, off: nat, t: nat) {
    offset + solved == Span(t, clusterBytes) + off && (solved > 0 ==> off == 0)
  }

  /** The bytes moved so far are those of the chain at `offset`. */
  ghost predicate Agrees(g: Layout, disk: Disk, fat: Fat, start: nat, offset: nat, data: seq<Byte>, n: nat)
    requires |disk| == g.blocks && n <= |data|
  {
    forall i :: 0 <= i < n ==> ChainByte(g, disk, fat, start, offset + i) == Some(data[i])
  }

  lemma AgreesNext(g: Layout, disk: Disk, fat: Fat, start: nat, offset: nat, data: seq<Byte>, part: seq<Byte>,
                   t: nat, off: nat, buf: seq<Byte>)
    requires |disk| == g.blocks && |buf| == 512 * g.sectorsPerCluster && off + |part| <= |buf|
    requires ClusterIn(g, Walk(fat, start, t))
    requires forall x: nat {:trigger buf[x]} :: x < |buf| ==> buf[x] == ByteOf(g, disk, Walk(fat, start, t), x)
    requires part == buf[off..off + |part|]
    requires offset + |data| == Span(t, 512 * g.sectorsPerCluster) + off
    requires Agrees(g, disk, fat, start, offset, data, |data|)
    ensures Agrees(g, disk, fat, start, offset, data + part, |data + part|)
  {
    forall i | |data| <= i < |data + part|
      ensures ChainByte(g, disk, fat, start, offset + i) == Some((data + part)[i])
    {
      var x := off + i - |data|;
      LocateAt(512 * g.sectorsPerCluster, t, x);
      assert (data + part)[i] == buf[x];
    }
  }

  /** The walker yields the clusters of the first `len` bytes. */
  ghost predicate Reaches(fat: Fat, start: nat, clusterBytes: nat, len: nat)
    requires FatOk(fat) && clusterBytes > 0
  {
    len > 0 ==> Yields(fat, start, Locate(clusterBytes, len - 1).0 + 1)
  }

  /** A walk that stops after `t` clusters does not reach beyond them. */
  lemma TooShort(fat: Fat, start: nat, t: nat, clusterBytes: nat, len: nat)
    requires FatOk(fat) && clusterBytes > 0 && !Call(fat, start, t).Yield? && Span(t, clusterBytes) < len
    ensures !Reaches(fat, start, clusterBytes, len)
  {
    hide Call, Locate;
    var last := Locate(clusterBytes, len - 1).0;
    LocateIsQuotient(clusterBytes, len - 1);
    if last < t {
      SpanNext(last, t, clusterBytes);
    }
  }

  lemma LongEnough(fat: Fat, start: nat, t: nat, clusterBytes: nat, len: nat)
    requires FatOk(fat) && clusterBytes > 0 && Yields(fat, start, t) && len <= Span(t, clusterBytes)
    ensures Reaches(fat, start, clusterBytes, len)
  {
    hide Call, Locate;
    if len > 0 {
      var last := Locate(clusterBytes, len - 1).0;
      LocateIsQuotient(clusterBytes, len - 1);
      if t <= last {
        SpanMonotone(t, last, clusterBytes);
      }
    }
  }

  /** A chain that is well formed and long enough is reached to its end. */
  lemma ChainReaches(fat: Fat, start: nat, chain: seq<nat>, clusterBytes: nat, len: nat)
    requires FatOk(fat) && IsChain(fat, start, chain) && clusterBytes > 0 && len <= Span(|chain|, clusterBytes)
    ensures Reaches(fat, start, clusterBytes, len)
  {
    hide Next, Call, IsChain;
    ChainYields(fat, start, chain, |chain|);
    LongEnough(fat, start, |chain|, clusterBytes, len);
  }

  /** The checks at the top of `do_file_io`, and the clamped size. */
  function Clamp(g: Geometry, entry: FileEntry, offset: nat, size: nat): Result<nat> {
    if entry.isDirectory then Failure(Invalid)
    else if offset > entry.size then Failure(Invalid)
    else if offset == entry.size || size == 0 then Success(0)
    else if !ClusterIn(g, entry.cluster) then Failure(Invalid)
    else Success(Min(size, entry.size - offset))
  }

  /** What is asked for is cut off at the end of the file.  Directories, an offset behind the end and, if there is anything to
      transfer, a file without clusters are refused. */
  lemma ClampMeans(g: Geometry, entry: FileEntry, offset: nat, size: nat)
    ensures var r := Clamp(g, entry, offset, size);
      && (r.Failure? <==> entry.isDirectory || offset > entry.size || (offset < entry.size && size > 0 && !ClusterIn(g, entry.cluster)))
      && (r.Failure? ==> r.error == Invalid)
      && (r.Success? ==> r.value <= size && offset + r.value <= entry.size && (r.value == size || offset + r.value == entry.size))
  {
  }

  /** A successful read is the slice of the walk at `offset`, clamped to the file size.  It succeeds
      exactly when the walker gets that far, unless the device fails or memory runs out. */
  method ReadFile(fs: FatInfo, entry: FileEntry, offset: nat, size: nat, canAllocate: bool) returns (r: Result<nat>, out: seq<Byte>)
    requires fs.Clean()
    modifies fs`buffer, fs`bufferSector, fs`lost, fs.dev`script, fs.dev`tally
    ensures Blamed(old(fs.dev.tally), fs.dev.tally, fs.lost, if r.Failure? then r.error else NoError)
    ensures !fs.lost ==> fs.Clean()
    ensures Clamp(fs.g, entry, offset, size).Failure? || Clamp(fs.g, entry, offset, size).value == 0 ==>
              r == Clamp(fs.g, entry, offset, size)
    ensures r.Success? ==> && r == Clamp(fs.g, entry, offset, size) && |out| == r.value
                           && Agrees(fs.g, fs.dev.sectors, fs.Links(), entry.cluster, offset, out, |out|)
    ensures r.Failure? && canAllocate && Clamp(fs.g, entry, offset, size).Success? ==>
              r.error == Io || (r.error == BadFs && !Reaches(fs.Links(), entry.cluster, 512 * fs.g.sectorsPerCluster,
                                                             offset + Clamp(fs.g, entry, offset, size).value))
    ensures r.Success? && r.value > 0 ==> Reaches(fs.Links(), entry.cluster, 512 * fs.g.sectorsPerCluster, offset + r.value)
  {
    hide Represents, Yields, After, Call, Next, IsChain, FatOf, FatOk, Walk, Agrees, Reaches;
    out := [];
    r := Clamp(fs.g, entry, offset, size);
    if r.Failure? || r.value == 0 {
      AgreesNothing(fs, entry.cluster, offset);
      return;
    }
    if !canAllocate {
      return Failure(NoMem), out;
    }
    var n := r.value;
    ghost var fat := fs.Links();
    ghost var start := entry.cluster;
    var w := Start(entry.cluster);
    Begin(fat, start);
    AgreesNothing(fs, start, offset);
    ghost var t := 0;
    var off: nat := offset;
    while |out| < n
      invariant fs.Clean() && |out| <= n && fs.dev.tally == old(fs.dev.tally)
      invariant Yields(fat, start, t) && w == After(fat, start, t)
      invariant if |out| == n then offset + n <= Span(t, 512 * fs.g.sectorsPerCluster) else InStep(512 * fs.g.sectorsPerCluster, offset, |out|, off, t)
      invariant Agrees(fs.g, fs.dev.sectors, fat, start, offset, out, |out|)
      decreases fs.g.clusterCount - t
    {
      Advance(fat, start, t);
      var next;
      next, w := fs.NextCluster(w);
      if next.Failure? || next.value == 0 {
        if !fs.lost {
          TooShort(fat, start, t, 512 * fs.g.sectorsPerCluster, offset + n);
        }
        return Failure(if next.Failure? then next.error else BadFs), out;
      }
      YieldPosition(fat, start, t);
      var err, buf := ReadPart(fs, next.value);
      if err != NoError {
        return Failure(err), out;
      }
      if off >= 512 * fs.g.sectorsPerCluster {
        off := off - 512 * fs.g.sectorsPerCluster;
      } else {
        var count := Min(512 * fs.g.sectorsPerCluster - off, n - |out|);
        AgreesNext(fs.g, fs.dev.sectors, fat, start, offset, out, buf[off..off + count], t, off, buf);
        out := out + buf[off..off + count];
        off := 0;
      }
      t := t + 1;
    }
    LongEnough(fat, start, t, 512 * fs.g.sectorsPerCluster, offset + n);
    return Success(|out|), out;
  }

  lemma AgreesNothing(fs: FatInfo, start: nat, offset: nat)
    requires fs.Valid()
    ensures Agrees(fs.g, fs.dev.sectors, fs.Links(), start, offset, [], 0)
  {
  }

  lemma YieldPosition(fat: Fat, start: nat, t: nat)
    requires FatOk(fat) && Yields(fat, start, t) && Call(fat, start, t).Yield?
    ensures Call(fat, start, t).cluster == Walk(fat, start, t) && ValidCluster(fat, Walk(fat, start, t))
  {
    YieldsAreTheWalk(fat, start, t + 1);
  }

  // ---- Writing ----

  lemma {:induction false} WroteNothing(g: Layout, disk: Disk, fat: Fat, start: nat, offset: nat, data: seq<Byte>)
    requires |disk| == g.blocks
    ensures Overwritten(g, disk, disk, fat, start, offset, data, 0)
    ensures OnlyChain(g, disk, disk, fat, start, 0)
  {
  }

  lemma WroteNext(g: Layout, before: Disk, mid: Disk, after: Disk, fat: Fat, start: nat, offset: nat, data: seq<Byte>,
                  solved: nat, count: nat, t: nat, off: nat)
    requires |before| == |mid| == |after| == g.blocks
    requires solved + count <= |data| && off + count <= 512 * g.sectorsPerCluster
    requires offset + solved == Span(t, 512 * g.sectorsPerCluster) + off
    requires ClusterIn(g, Walk(fat, start, t))
    requires forall lba :: 0 <= lba < g.blocks && !IsClusterLba(g, Walk(fat, start, t), lba) ==> after[lba] == mid[lba]
    requires forall x: nat {:trigger ByteOf(g, after, Walk(fat, start, t), x)} :: x < 512 * g.sectorsPerCluster ==>
               ByteOf(g, after, Walk(fat, start, t), x) ==
               if off <= x < off + count then data[solved + x - off] else ByteOf(g, mid, Walk(fat, start, t), x)
    requires Overwritten(g, before, mid, fat, start, offset, data, solved)
    ensures Overwritten(g, before, after, fat, start, offset, data, solved + count)
  {
    hide Walk, LastWriter;
    var w := Walk(fat, start, t);
    forall c: nat, x: nat {:trigger ByteOf(g, after, c, x)} | ClusterIn(g, c) && x < 512 * g.sectorsPerCluster
      ensures ByteOf(g, after, c, x) ==
        match LastWriter(fat, start, 512 * g.sectorsPerCluster, offset, solved + count, c, x)
        case None => ByteOf(g, before, c, x)
        case Some(i) => data[i]
    {
      WriterStep(fat, start, 512 * g.sectorsPerCluster, offset, solved, count, t, off, c, x);
      assert ByteOf(g, mid, c, x) ==
        match LastWriter(fat, start, 512 * g.sectorsPerCluster, offset, solved, c, x)
        case None => ByteOf(g, before, c, x)
        case Some(i) => data[i];
      if c != w {
        ClusterAddress(g, c, x / 512);
        ClustersDisjoint(g, c, w, DataLba(g, c, x / 512));
      }
    }
  }

  /** A part written to walk position `t` stays on the chain. */
  lemma StaysOnChain(g: Layout, before: Disk, mid: Disk, after: Disk, fat: Fat, start: nat, t: nat)
    requires |before| == |mid| == |after| == g.blocks && ClusterIn(g, Walk(fat, start, t))
    requires OnlyChain(g, before, mid, fat, start, t)
    requires forall lba :: 0 <= lba < g.blocks && !IsClusterLba(g, Walk(fat, start, t), lba) ==> after[lba] == mid[lba]
    ensures OnlyChain(g, before, after, fat, start, t + 1)
  {
    hide Walk;
  }

  /** A successful write puts `data[..n]` at `offset` of the chain; in case the chain visits an
      address twice, the later byte wins.  No sector outside the chain's clusters changes, and
      neither does the FAT. */
  method WriteFile(fs: FatInfo, entry: FileEntry, offset: nat, data: seq<Byte>, canAllocate: bool) returns (r: Result<nat>, ghost t: nat)
    requires fs.Clean()
    modifies fs`buffer, fs`bufferSector, fs`lost, fs.dev
    ensures Blamed(old(fs.dev.tally), fs.dev.tally, fs.lost, if r.Failure? then r.error else NoError)
    ensures !fs.lost ==> fs.Clean()
    ensures |fs.dev.sectors| == fs.g.blocks && OnlyChain(fs.g, old(fs.dev.sectors), fs.dev.sectors, old(fs.Links()), entry.cluster, t)
    ensures Clamp(fs.g, entry, offset, |data|).Failure? || Clamp(fs.g, entry, offset, |data|).value == 0 ==>
              r == Clamp(fs.g, entry, offset, |data|) && fs.dev.sectors == old(fs.dev.sectors)
    ensures r.Success? ==>
              && r == Clamp(fs.g, entry, offset, |data|) && r.value <= |data|
              && Overwritten(fs.g, old(fs.dev.sectors), fs.dev.sectors, fs.Links(), entry.cluster, offset, data, r.value)
    ensures r.Failure? && canAllocate && Clamp(fs.g, entry, offset, |data|).Success? ==>
              r.error == Io || (r.error == BadFs && !Reaches(fs.Links(), entry.cluster, 512 * fs.g.sectorsPerCluster,
                                                             offset + Clamp(fs.g, entry, offset, |data|).value))
    ensures r.Success? && r.value > 0 ==> Reaches(fs.Links(), entry.cluster, 512 * fs.g.sectorsPerCluster, offset + r.value)
  {
    hide Represents, Yields, After, Call, Next, IsChain, FatOf, FatOk, Walk, Overwritten, OnlyChain, Reaches;
    r := Clamp(fs.g, entry, offset, |data|);
    t := 0;
    ghost var fat := fs.Links();
    ghost var start := entry.cluster;
    ghost var before := fs.dev.sectors;
    WroteNothing(fs.g, before, fat, start, offset, data);
    if r.Failure? || r.value == 0 {
      return;
    }
    if !canAllocate {
      return Failure(NoMem), t;
    }
    var n := r.value;
    var w := Start(entry.cluster);
    Begin(fat, start);
    var solved: nat, off: nat := 0, offset;
    while solved < n
      invariant fs.Clean() && solved <= n && fs.dev.tally == old(fs.dev.tally)
      invariant Yields(fat, start, t) && w == After(fat, start, t)
      invariant if solved == n then offset + n <= Span(t, 512 * fs.g.sectorsPerCluster) else InStep(512 * fs.g.sectorsPerCluster, offset, solved, off, t)
      invariant Overwritten(fs.g, before, fs.dev.sectors, fat, start, offset, data, solved)
      invariant OnlyChain(fs.g, before, fs.dev.sectors, fat, start, t)
      decreases fs.g.clusterCount - t
    {
      Advance(fat, start, t);
      var next;
      next, w := fs.NextCluster(w);
      if next.Failure? || next.value == 0 {
        if !fs.lost {
          TooShort(fat, start, t, 512 * fs.g.sectorsPerCluster, offset + n);
        }
        return Failure(if next.Failure? then next.error else BadFs), t;
      }
      YieldPosition(fat, start, t);
      ghost var mid := fs.dev.sectors;
      if off >= 512 * fs.g.sectorsPerCluster {
        var err, _ := ReadPart(fs, next.value);
        if err != NoError {
          return Failure(err), t;
        }
        off := off - 512 * fs.g.sectorsPerCluster;
      } else {
        var count := Min(512 * fs.g.sectorsPerCluster - off, n - solved);
        var err := WritePart(fs, next.value, off, data, solved, count);
        if err != NoError {
          StaysOnChain(fs.g, before, mid, fs.dev.sectors, fat, start, t);
          t := t + 1;
          return Failure(err), t;
        }
        WroteNext(fs.g, before, mid, fs.dev.sectors, fat, start, offset, data, solved, count, t, off);
        solved, off := solved + count, 0;
      }
      StaysOnChain(fs.g, before, mid, fs.dev.sectors, fat, start, t);
      t := t + 1;
    }
    LongEnough(fat, start, t, 512 * fs.g.sectorsPerCluster, offset + n);
    return Success(solved), t;
  }

  // ---- Reading back what was written ----

  ghost predicate SameAddress(fat: Fat, start: nat, clusterBytes: nat, offset: nat, i: nat, j: nat)
    requires clusterBytes > 0
  {
    Address(fat, start, clusterBytes, offset + i) == Address(fat, start, clusterBytes, offset + j)
  }

  /** Two bytes of the transfer have the same address. */
  ghost predicate Clash(fat: Fat, start: nat, clusterBytes: nat, offset: nat, n: nat)
    requires clusterBytes > 0
  {
    exists i: nat, j: nat :: i < j < n && SameAddress(fat, start, clusterBytes, offset, i, j)
  }

  /** Every byte of the transfer is on the volume. */
  ghost predicate OnVolume(g: Layout, fat: Fat, start: nat, offset: nat, n: nat) {
    forall p :: offset <= p < offset + n ==> ClusterIn(g, Address(fat, start, 512 * g.sectorsPerCluster, p).0)
  }

  /** The last writer of an address is at least as late as any other. */
  lemma {:induction false} LastIsLast(fat: Fat, start: nat, clusterBytes: nat, offset: nat, n: nat, i: nat)
    requires clusterBytes > 0 && i < n
    ensures var (c, x) := Address(fat, start, clusterBytes, offset + i);
            var last := LastWriter(fat, start, clusterBytes, offset, n, c, x);
            last.Some? && i <= last.value
  {
    if i < n - 1 {
      LastIsLast(fat, start, clusterBytes, offset, n - 1, i);
    }
  }

  /** What reading byte `i` of the transfer returns: the data of the last writer there. */
  lemma LastByte(g: Layout, before: Disk, after: Disk, fat: Fat, start: nat, offset: nat, data: seq<Byte>, n: nat, i: nat)
    returns (last: nat)
    requires |before| == |after| == g.blocks && n <= |data| && OnVolume(g, fat, start, offset, n) && i < n
    requires Overwritten(g, before, after, fat, start, offset, data, n)
    ensures i <= last < n && SameAddress(fat, start, 512 * g.sectorsPerCluster, offset, i, last)
    ensures ChainByte(g, after, fat, start, offset + i) == Some(data[last])
    ensures forall j: nat :: j < n && SameAddress(fat, start, 512 * g.sectorsPerCluster, offset, i, j) ==> j <= last
  {
    hide Locate, Walk;
    var bytes := 512 * g.sectorsPerCluster;
    var (c, x) := Address(fat, start, bytes, offset + i);
    LastIsLast(fat, start, bytes, offset, n, i);
    last := LastWriter(fat, start, bytes, offset, n, c, x).value;
    assert ByteOf(g, after, c, x) == data[last];
    forall j: nat | j < n && SameAddress(fat, start, bytes, offset, i, j)
      ensures j <= last
    {
      LastIsLast(fat, start, bytes, offset, n, j);
    }
  }

  /** Without a clash, reading back returns exactly the bytes written. */
  lemma ReadsBack(g: Layout, before: Disk, after: Disk, fat: Fat, start: nat, offset: nat, data: seq<Byte>, n: nat)
    requires |before| == |after| == g.blocks && n <= |data| && OnVolume(g, fat, start, offset, n)
    requires Overwritten(g, before, after, fat, start, offset, data, n)
    requires !Clash(fat, start, 512 * g.sectorsPerCluster, offset, n)
    ensures Agrees(g, after, fat, start, offset, data, n)
  {
    hide Overwritten, ChainByte, SameAddress;
    forall i | 0 <= i < n
      ensures ChainByte(g, after, fat, start, offset + i) == Some(data[i])
    {
      var last := LastByte(g, before, after, fat, start, offset, data, n, i);
    }
  }

  /** With a clash, some data cannot be read back, whatever was on the disk. */
  lemma ClashLosesData(g: Layout, fat: Fat, start: nat, offset: nat, n: nat) returns (data: seq<Byte>)
    requires OnVolume(g, fat, start, offset, n) && Clash(fat, start, 512 * g.sectorsPerCluster, offset, n)
    ensures |data| == n
    ensures forall before: Disk, after: Disk :: |before| == |after| == g.blocks && Overwritten(g, before, after, fat, start, offset, data, n) ==>
              !Agrees(g, after, fat, start, offset, data, n)
  {
    hide Overwritten, ChainByte, SameAddress;
    var i: nat, j: nat :| i < j < n && SameAddress(fat, start, 512 * g.sectorsPerCluster, offset, i, j);
    data := seq(n, k => if k == i then 1 else 0);
    forall before: Disk, after: Disk | |before| == |after| == g.blocks && Overwritten(g, before, after, fat, start, offset, data, n)
      ensures !Agrees(g, after, fat, start, offset, data, n)
    {
      var last := LastByte(g, before, after, fat, start, offset, data, n, i);
      assert data[i] == 1 && data[last] == 0;
    }
  }

  lemma {:induction false} LocateIsQuotient(clusterBytes: nat, pos: nat)
    requires clusterBytes > 0
    ensures Span(Locate(clusterBytes, pos).0, clusterBytes) + Locate(clusterBytes, pos).1 == pos
  {
    if pos >= clusterBytes {
      LocateIsQuotient(clusterBytes, pos - clusterBytes);
    }
  }

  /** The transfer visits the cluster at walk position `a` again at position `b`, fewer than
      `n` bytes later. */
  ghost predicate Revisits(fat: Fat, start: nat, clusterBytes: nat, offset: nat, n: nat, a: nat, b: nat) {
    && a < b && Walk(fat, start, a) == Walk(fat, start, b)
    && Span(a, clusterBytes) + clusterBytes > offset && Span(b, clusterBytes) < offset + n
    && Span(b, clusterBytes) - Span(a, clusterBytes) < n
  }

  lemma {:induction false} SpanMonotone(a: nat, b: nat, k: nat)
    requires a <= b
    ensures Span(a, k) <= Span(b, k)
  {
    if a < b {
      SpanNext(a, b, k);
    }
  }

  /** A transfer clashes exactly when it comes back to a cluster before `n` bytes have passed:
      on a cycle, when it is longer than one lap. */
  lemma ClashIsRevisit(fat: Fat, start: nat, clusterBytes: nat, offset: nat, n: nat)
    requires clusterBytes > 0
    ensures Clash(fat, start, clusterBytes, offset, n) <==>
              exists a: nat, b: nat :: Revisits(fat, start, clusterBytes, offset, n, a, b)
  {
    hide Locate, Walk;
    if i: nat, j: nat :| i < j < n && SameAddress(fat, start, clusterBytes, offset, i, j) {
      LocateIsQuotient(clusterBytes, offset + i);
      LocateIsQuotient(clusterBytes, offset + j);
      var a, b := Locate(clusterBytes, offset + i).0, Locate(clusterBytes, offset + j).0;
      if b < a {
        SpanMonotone(b, a, clusterBytes);
      }
      assert Revisits(fat, start, clusterBytes, offset, n, a, b);
    }
    if a: nat, b: nat :| Revisits(fat, start, clusterBytes, offset, n, a, b) {
      SpanNext(a, b, clusterBytes);
      var x: nat := if Span(a, clusterBytes) < offset then offset - Span(a, clusterBytes) else 0;
      LocateAt(clusterBytes, a, x);
      LocateAt(clusterBytes, b, x);
      var i: nat, j: nat := Span(a, clusterBytes) + x - offset, Span(b, clusterBytes) + x - offset;
      assert offset + i == Span(a, clusterBytes) + x && offset + j == Span(b, clusterBytes) + x;
      assert SameAddress(fat, start, clusterBytes, offset, i, j);
    }
  }

  /** On a chain that ends, no transfer within its clusters clashes. */
  lemma ChainNeverClashes(fat: Fat, start: nat, clusterBytes: nat, offset: nat, n: nat, chain: seq<nat>)
    requires FatOk(fat) && IsChain(fat, start, chain) && clusterBytes > 0 && offset + n <= Span(|chain|, clusterBytes)
    ensures !Clash(fat, start, clusterBytes, offset, n)
  {
    hide Walk, IsChain;
    ClashIsRevisit(fat, start, clusterBytes, offset, n);
    forall a: nat, b: nat
      ensures !Revisits(fat, start, clusterBytes, offset, n, a, b)
    {
      if Revisits(fat, start, clusterBytes, offset, n, a, b) {
        if |chain| <= b {
          SpanMonotone(|chain|, b, clusterBytes);
          assert false;
        }
        ChainDistinct(fat, start, chain);
        ChainIsWalk(fat, start, chain, a);
        ChainIsWalk(fat, start, chain, b);
      }
    }
  }

  // ---- When reading back works ----

  /** Bytes that are reached are on the volume. */
  lemma ReachedOnVolume(g: Layout, fat: Fat, start: nat, offset: nat, n: nat)
    requires FatOk(fat) && |fat| == g.clusterCount + 2 && Reaches(fat, start, 512 * g.sectorsPerCluster, offset + n)
    ensures OnVolume(g, fat, start, offset, n)
  {
    hide Call, Walk, Locate, Next;
    var bytes := 512 * g.sectorsPerCluster;
    forall p | offset <= p < offset + n
      ensures ClusterIn(g, Address(fat, start, bytes, p).0)
    {
      var last := Locate(bytes, offset + n - 1).0;
      LocateIsQuotient(bytes, offset + n - 1);
      LocateIsQuotient(bytes, p);
      var i := Locate(bytes, p).0;
      if last < i {
        SpanNext(last, i, bytes);
      }
      YieldsAreTheWalk(fat, start, last + 1);
    }
  }

  ghost function Listed(n: nat, f: nat -> Byte): (s: seq<Byte>)
    ensures |s| == n && forall i :: 0 <= i < n ==> s[i] == f(i)
  {
    if n == 0 then [] else Listed(n - 1, f) + [f(n - 1)]
  }

  ghost function ByteOrZero(b: Option<Byte>): Byte {
    if b.Some? then b.value else 0
  }

  /** The sector at `lba` after the write. */
  ghost function WrittenSector(g: Layout, before: Disk, fat: Fat, start: nat, offset: nat, data: seq<Byte>, lba: nat): Sector
    requires |before| == g.blocks && lba < g.blocks
  {
    if exists c: nat :: ClusterIn(g, c) && IsClusterLba(g, c, lba) then
      var c: nat :| ClusterIn(g, c) && IsClusterLba(g, c, lba);
      WrittenIn(g, before, fat, start, offset, data, c, lba - DataLba(g, c, 0))
    else before[lba]
  }

  ghost function WrittenIn(g: Layout, before: Disk, fat: Fat, start: nat, offset: nat, data: seq<Byte>, c: nat, k: nat): Sector
    requires |before| == g.blocks && ClusterIn(g, c)
  {
    Listed(512, (y: nat) => WrittenByte(g, before, fat, start, offset, data, c, 512 * k + y))
  }

  lemma WrittenInAt(g: Layout, before: Disk, fat: Fat, start: nat, offset: nat, data: seq<Byte>, c: nat, k: nat, y: nat)
    requires |before| == g.blocks && ClusterIn(g, c) && y < 512
    ensures WrittenIn(g, before, fat, start, offset, data, c, k)[y] == WrittenByte(g, before, fat, start, offset, data, c, 512 * k + y)
  {
    hide WrittenByte, Listed;
    var f := (y: nat) => WrittenByte(g, before, fat, start, offset, data, c, 512 * k + y);
    assert Listed(512, f)[y] == f(y);
  }

  ghost function WrittenByte(g: Layout, before: Disk, fat: Fat, start: nat, offset: nat, data: seq<Byte>, c: nat, x: nat): Byte
    requires |before| == g.blocks && ClusterIn(g, c)
  {
    match LastWriter(fat, start, 512 * g.sectorsPerCluster, offset, |data|, c, x)
    case None => if x < 512 * g.sectorsPerCluster then ByteOf(g, before, c, x) else 0
    case Some(i) => data[i]
  }

  ghost function WrittenDisk(g: Layout, before: Disk, fat: Fat, start: nat, offset: nat, data: seq<Byte>): (after: Disk)
    requires |before| == g.blocks
    ensures |after| == g.blocks
    ensures forall lba: nat :: lba < g.blocks ==> after[lba] == WrittenSector(g, before, fat, start, offset, data, lba)
  {
    seq(g.blocks, (lba: nat) requires lba < g.blocks => WrittenSector(g, before, fat, start, offset, data, lba))
  }

  /** Every write has an outcome. */
  lemma WriteExists(g: Layout, before: Disk, fat: Fat, start: nat, offset: nat, data: seq<Byte>)
    requires |before| == g.blocks
    ensures Overwritten(g, before, WrittenDisk(g, before, fat, start, offset, data), fat, start, offset, data, |data|)
  {
    hide LastWriter, WrittenDisk, WrittenSector, ByteOf;
    var after := WrittenDisk(g, before, fat, start, offset, data);
    forall c: nat, x: nat {:trigger ByteOf(g, after, c, x)} | ClusterIn(g, c) && x < 512 * g.sectorsPerCluster
      ensures ByteOf(g, after, c, x) == WrittenByte(g, before, fat, start, offset, data, c, x)
    {
      ByteWritten(g, before, fat, start, offset, data, c, x);
    }
  }

  lemma ByteWritten(g: Layout, before: Disk, fat: Fat, start: nat, offset: nat, data: seq<Byte>, c: nat, x: nat)
    requires |before| == g.blocks && ClusterIn(g, c) && x < 512 * g.sectorsPerCluster
    ensures ByteOf(g, WrittenDisk(g, before, fat, start, offset, data), c, x) == WrittenByte(g, before, fat, start, offset, data, c, x)
  {
    hide LastWriter, WrittenDisk, WrittenSector, WrittenByte, WrittenIn;
    SectorOfCluster(g, before, fat, start, offset, data, c, x / 512);
    WrittenInAt(g, before, fat, start, offset, data, c, x / 512, x % 512);
    assert 512 * (x / 512) + x % 512 == x;
  }

  lemma SectorOfCluster(g: Layout, before: Disk, fat: Fat, start: nat, offset: nat, data: seq<Byte>, c: nat, k: nat)
    requires |before| == g.blocks && ClusterIn(g, c) && k < g.sectorsPerCluster
    ensures WrittenSector(g, before, fat, start, offset, data, DataLba(g, c, k)) == WrittenIn(g, before, fat, start, offset, data, c, k)
  {
    hide LastWriter, WrittenIn;
    var lba := DataLba(g, c, k);
    ClusterAddress(g, c, k);
    forall d: nat | ClusterIn(g, d) && IsClusterLba(g, d, lba)
      ensures d == c
    {
      if d != c {
        ClustersDisjoint(g, c, d, lba);
      }
    }
    assert lba - DataLba(g, c, 0) == k;
  }

  /** What a read returns. */
  lemma ReadExists(g: Layout, disk: Disk, fat: Fat, start: nat, offset: nat, n: nat) returns (out: seq<Byte>)
    requires |disk| == g.blocks && OnVolume(g, fat, start, offset, n)
    ensures |out| == n && Agrees(g, disk, fat, start, offset, out, n)
  {
    hide ByteOf, Locate, Walk;
    var f := (i: nat) => ByteOrZero(ChainByte(g, disk, fat, start, offset + i));
    out := Listed(n, f);
    forall i: nat | i < n
      ensures ChainByte(g, disk, fat, start, offset + i) == Some(out[i])
    {
      var p := offset + i;
      assert ClusterIn(g, Address(fat, start, 512 * g.sectorsPerCluster, offset + i).0);
      assert out[i] == f(i) == ByteOrZero(ChainByte(g, disk, fat, start, p));
    }
  }

  /** Whatever is written to `n` bytes at `offset`, and whatever the disk held, a read of them returns it. */
  ghost predicate ReadsBackAlways(g: Layout, fat: Fat, start: nat, offset: nat, n: nat) {
    forall before: Disk, after: Disk, data: seq<Byte>, out: seq<Byte> ::
      (|before| == |after| == g.blocks && |data| == |out| == n
       && Overwritten(g, before, after, fat, start, offset, data, n) && Agrees(g, after, fat, start, offset, out, n)) ==> out == data
  }

  lemma SameRead(g: Layout, disk: Disk, fat: Fat, start: nat, offset: nat, one: seq<Byte>, two: seq<Byte>, n: nat)
    requires |disk| == g.blocks && |one| == |two| == n && Agrees(g, disk, fat, start, offset, one, n) && Agrees(g, disk, fat, start, offset, two, n)
    ensures one == two
  {
    hide ChainByte;
    forall i | 0 <= i < n
      ensures one[i] == two[i]
    {
      assert ChainByte(g, disk, fat, start, offset + i) == Some(one[i]) && ChainByte(g, disk, fat, start, offset + i) == Some(two[i]);
    }
  }

  /** Read after write works for all data exactly if the transfer never comes back to a cluster of its own. */
  lemma ReadAfterWrite(g: Layout, fat: Fat, start: nat, offset: nat, n: nat)
    requires FatOk(fat) && |fat| == g.clusterCount + 2 && Reaches(fat, start, 512 * g.sectorsPerCluster, offset + n)
    ensures ReadsBackAlways(g, fat, start, offset, n) <==> !exists a: nat, b: nat :: Revisits(fat, start, 512 * g.sectorsPerCluster, offset, n, a, b)
  {
    hide FatOk, Reaches, OnVolume, Clash, Revisits, Overwritten, Agrees;
    ReachedOnVolume(g, fat, start, offset, n);
    ClashIsRevisit(fat, start, 512 * g.sectorsPerCluster, offset, n);
    if Clash(fat, start, 512 * g.sectorsPerCluster, offset, n) {
      var data := ClashLosesData(g, fat, start, offset, n);
      var before: Disk := seq(g.blocks, _ => seq(512, _ => 0));
      var after := WrittenDisk(g, before, fat, start, offset, data);
      WriteExists(g, before, fat, start, offset, data);
      var out := ReadExists(g, after, fat, start, offset, n);
      assert out != data;
    } else {
      forall before: Disk, after: Disk, data: seq<Byte>, out: seq<Byte> | |before| == |after| == g.blocks && |data| == |out| == n
        && Overwritten(g, before, after, fat, start, offset, data, n) && Agrees(g, after, fat, start, offset, out, n)
        ensures out == data
      {
        ReadsBack(g, before, after, fat, start, offset, data, n);
        SameRead(g, after, fat, start, offset, data, out, n);
      }
    }
  }

  /** A corrupt volume whose clusters 2 and 3 point at each other, with sectors for clusters: the walker
      yields three clusters before it notices, so a transfer of 1025 bytes succeeds and comes back to cluster 2. */
  lemma CyclicFileClashes(g: Layout)
    requires g.clusterCount == 3 && g.sectorsPerCluster == 1
    ensures var fat := [0, 0, 3, 2, 0]; FatOk(fat) && Reaches(fat, 2, 512, 1025) && !ReadsBackAlways(g, fat, 2, 0, 1025)
  {
    var fat := [0, 0, 3, 2, 0];
    assert Call(fat, 2, 0) == Yield(2);
    assert Call(fat, 2, 1) == Yield(3);
    assert Call(fat, 2, 2) == Yield(2);
    assert Yields(fat, 2, 3) by {
      forall i | 0 <= i < 3
        ensures Call(fat, 2, i).Yield?
      {
        assert i == 0 || i == 1 || i == 2;
      }
    }
    assert Span(1, 512) == 512 && Span(2, 512) == 1024 && Span(3, 512) == 1536;
    LongEnough(fat, 2, 3, 512, 1025);
    assert Walk(fat, 2, 1) == 3 && Walk(fat, 2, 2) == 2;
    assert Revisits(fat, 2, 512, 0, 1025, 0, 2);
    ReadAfterWrite(g, fat, 2, 0, 1025);
  }
}
