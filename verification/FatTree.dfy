/** The directory tree of a volume: the entries of its live directories name every live chain but
    the root's exactly once, and every run of operations that succeed, or fail and clean up, keeps it so. */
module FatTree {
  import opened Errors
  import opened Bytes
  import opened FatChain
  import opened FatGeometry
  import opened FatImage
  import opened FatVolume
  import opened FatDirectory
  import opened FatLookup
  import opened FatLive
  import opened Sequences
  import FatFile

  // ---- Slots of a directory ----

  /** A slot of a directory: in its `i`-th cluster, sector `k`, slot `j`. */
  datatype Pos = Pos(i: nat, k: nat, j: nat)

  predicate In(g: Layout, chain: seq<nat>, p: Pos) {
    p.i < |chain| && p.k < g.sectorsPerCluster && p.j < 16
  }

  predicate Before(p: Pos, q: Pos) {
    p.i < q.i || (p.i == q.i && (p.k < q.k || (p.k == q.k && p.j < q.j)))
  }

  /** What slot `j` of sector `k` of cluster `c` holds. */
  ghost function Cell(g: Layout, disk: Disk, c: nat, k: nat, j: nat): DirEntry {
    if |disk| == g.blocks && ClusterIn(g, c) && k < g.sectorsPerCluster && j < 16 then EntryAt(disk[DataLba(g, c, k)], j)
    else seq(32, _ => 0)
  }

  ghost function Slot(g: Layout, disk: Disk, chain: seq<nat>, p: Pos): DirEntry
    requires p.i < |chain|
  {
    Cell(g, disk, chain[p.i], p.k, p.j)
  }

  /** The entry stands for a file or a directory of its own. */
  predicate IsLive(e: DirEntry) {
    IsValidEntry(e) && !IsDot(e)
  }

  /** Behind an end mark there are only end marks. */
  ghost predicate EndsOnce(g: Layout, disk: Disk, chain: seq<nat>) {
    forall p, q :: In(g, chain, p) && In(g, chain, q) && Before(p, q) && Slot(g, disk, chain, p)[0] == 0 ==> Slot(g, disk, chain, q)[0] == 0
  }

  // ---- The tree ----

  /** The chains of a volume, and which of them are directories. */
  datatype Tree = Tree(chains: Chains, dirs: set<nat>)

  /** The live entry `e` is at `p` in directory `d`. */
  ghost predicate Holds(g: Layout, disk: Disk, t: Tree, d: nat, p: Pos, e: DirEntry) {
    d in t.dirs && d in t.chains && In(g, t.chains[d], p) && Slot(g, disk, t.chains[d], p) == e && IsLive(e)
  }

  /** An entry names a chain of its kind, or, if a file is empty, none; chain `loose` is not named. */
  ghost predicate EntryOk(root: nat, t: Tree, loose: Option<nat>, e: DirEntry) {
    var h := ClusterOf(e);
    if h == 0 then !IsDirectory(e) else h in t.chains && h != root && (h in t.dirs <==> IsDirectory(e)) && loose != Some(h)
  }

  ghost predicate Named(g: Layout, disk: Disk, t: Tree, h: nat) {
    exists d, p, e :: Holds(g, disk, t, d, p, e) && ClusterOf(e) == h
  }

  /** Every chain but the root's and `loose` is named by one live entry, and live entries name nothing else. */
  ghost predicate NamedOnce(g: Layout, disk: Disk, t: Tree, loose: Option<nat>) {
    && (forall d, p, e :: Holds(g, disk, t, d, p, e) ==> EntryOk(g.root, t, loose, e))
    && (forall d, p, e, d', p', e' :: Holds(g, disk, t, d, p, e) && Holds(g, disk, t, d', p', e') && ClusterOf(e) == ClusterOf(e') != 0 ==>
          d == d' && p == p')
    && (forall h :: h in t.chains && h != g.root && loose != Some(h) ==> Named(g, disk, t, h))
  }

  ghost predicate TreeOk(g: Layout, disk: Disk, fat: Fat, t: Tree, loose: Option<nat>) {
    && |disk| == g.blocks && |fat| == g.clusterCount + 2 && FatOk(fat) && Forest(fat, t.chains)
    && g.root in t.dirs && t.dirs <= t.chains.Keys
    && (forall d :: d in t.dirs ==> EndsOnce(g, disk, t.chains[d]))
    && NamedOnce(g, disk, t, loose)
  }

  // ---- Live entries come and go ----

  /** The live entries are those of before and `e` at `p` in `d`. */
  ghost predicate Gains(g: Layout, disk: Disk, t: Tree, disk': Disk, t': Tree, d: nat, p: Pos, e: DirEntry) {
    forall b, q, x :: Holds(g, disk', t', b, q, x) <==> Holds(g, disk, t, b, q, x) || (b == d && q == p && x == e)
  }

  /** The same live entries. */
  ghost predicate SameLive(g: Layout, disk: Disk, t: Tree, disk': Disk, t': Tree) {
    forall b, q, x :: Holds(g, disk', t', b, q, x) <==> Holds(g, disk, t, b, q, x)
  }

  /** The entry names the loose chain, or if there is none, it is an empty file. */
  ghost predicate Fits(g: Layout, t: Tree, loose: Option<nat>, e: DirEntry) {
    if loose.None? then ClusterOf(e) == 0 && !IsDirectory(e)
    else
      var h := loose.value;
      ClusterOf(e) == h && h in t.chains && h != g.root && h != 0 && (h in t.dirs <==> IsDirectory(e))
  }

  lemma GainKeeps(g: Layout, disk: Disk, t: Tree, disk': Disk, t': Tree, d: nat, p: Pos, e: DirEntry, loose: Option<nat>)
    requires NamedOnce(g, disk, t, loose) && Gains(g, disk, t, disk', t', d, p, e)
    requires t'.chains.Keys == t.chains.Keys && t'.dirs == t.dirs
    requires Fits(g, t, loose, e)
    ensures NamedOnce(g, disk', t', None)
  {
    hide Holds, ClusterOf, IsDirectory;
    assert Holds(g, disk', t', d, p, e);
    forall b, q, x, b', q', x' | Holds(g, disk', t', b, q, x) && Holds(g, disk', t', b', q', x') && ClusterOf(x) == ClusterOf(x') != 0
      ensures b == b' && q == q'
    {
      if Holds(g, disk, t, b, q, x) {
        assert EntryOk(g.root, t, loose, x);
      }
      if Holds(g, disk, t, b', q', x') {
        assert EntryOk(g.root, t, loose, x');
      }
    }
    forall h | h in t'.chains && h != g.root
      ensures Named(g, disk', t', h)
    {
      if loose != Some(h) {
        var b, q, x :| Holds(g, disk, t, b, q, x) && ClusterOf(x) == h;
        assert Holds(g, disk', t', b, q, x);
      }
    }
  }

  lemma OneEntry(g: Layout, disk: Disk, t: Tree, d: nat, p: Pos, e: DirEntry, x: DirEntry)
    ensures Holds(g, disk, t, d, p, e) && Holds(g, disk, t, d, p, x) ==> e == x
  {
  }

  /** An entry that goes leaves the chain it named loose. */
  lemma LossKeeps(g: Layout, disk: Disk, t: Tree, disk': Disk, d: nat, p: Pos, e: DirEntry)
    requires NamedOnce(g, disk, t, None) && Gains(g, disk', t, disk, t, d, p, e) && !Holds(g, disk', t, d, p, e) && 0 !in t.chains
    ensures NamedOnce(g, disk', t, if ClusterOf(e) == 0 then None else Some(ClusterOf(e)))
  {
    hide Holds, ClusterOf, IsDirectory;
    assert Holds(g, disk, t, d, p, e);
    forall b, q, x | Holds(g, disk', t, b, q, x)
      ensures Holds(g, disk, t, b, q, x) && (ClusterOf(x) == ClusterOf(e) ==> ClusterOf(x) == 0)
    {
      assert Holds(g, disk, t, b, q, x);
      OneEntry(g, disk, t, d, p, e, x);
    }
    forall h | h in t.chains && h != g.root && h != ClusterOf(e)
      ensures Named(g, disk', t, h)
    {
      var b, q, x :| Holds(g, disk, t, b, q, x) && ClusterOf(x) == h;
      assert Holds(g, disk', t, b, q, x);
    }
  }

  // ---- One slot changes ----

  /** Apart from slot `j` of sector `k` of cluster `c`, every slot holds what it held, or stays an end mark. */
  ghost predicate OneCell(g: Layout, disk: Disk, disk': Disk, c: nat, k: nat, j: nat) {
    forall b: nat, m: nat, i: nat {:trigger Cell(g, disk', b, m, i)} :: (b, m, i) != (c, k, j) ==>
      Cell(g, disk', b, m, i) == Cell(g, disk, b, m, i) || (Cell(g, disk, b, m, i)[0] == 0 && Cell(g, disk', b, m, i)[0] == 0)
  }

  /** Different slots of live directories are different slots of the disk. */
  lemma SlotsApart(g: Layout, fat: Fat, t: Tree, d: nat, p: Pos, b: nat, q: Pos)
    requires FatOk(fat) && Forest(fat, t.chains) && d in t.chains && b in t.chains && In(g, t.chains[d], p) && In(g, t.chains[b], q)
    requires (b, q) != (d, p)
    ensures (t.chains[b][q.i], q.k, q.j) != (t.chains[d][p.i], p.k, p.j)
  {
    if b == d {
      ChainDistinct(fat, d, t.chains[d]);
    } else {
      assert Disjoint(t.chains[b], t.chains[d]);
    }
  }

  lemma OthersStay(g: Layout, disk: Disk, disk': Disk, fat: Fat, t: Tree, d: nat, p: Pos, b: nat, q: Pos)
    requires FatOk(fat) && Forest(fat, t.chains) && d in t.chains && b in t.chains && In(g, t.chains[d], p) && In(g, t.chains[b], q)
    requires (b, q) != (d, p) && OneCell(g, disk, disk', t.chains[d][p.i], p.k, p.j)
    ensures Slot(g, disk', t.chains[b], q) == Slot(g, disk, t.chains[b], q)
            || (Slot(g, disk, t.chains[b], q)[0] == 0 && Slot(g, disk', t.chains[b], q)[0] == 0)
  {
    hide Cell, Forest, FatOk;
    SlotsApart(g, fat, t, d, p, b, q);
  }

  /** A slot with nothing free before it is filled: end marks still come last. */
  lemma FilledEnds(g: Layout, disk: Disk, disk': Disk, fat: Fat, t: Tree, d: nat, p: Pos)
    requires FatOk(fat) && Forest(fat, t.chains) && d in t.dirs && t.dirs <= t.chains.Keys && In(g, t.chains[d], p)
    requires OneCell(g, disk, disk', t.chains[d][p.i], p.k, p.j) && Slot(g, disk', t.chains[d], p)[0] != 0
    requires forall b :: b in t.dirs ==> EndsOnce(g, disk, t.chains[b])
    requires forall q :: In(g, t.chains[d], q) && Before(q, p) ==> Slot(g, disk, t.chains[d], q)[0] != 0
    ensures forall b :: b in t.dirs ==> EndsOnce(g, disk', t.chains[b])
  {
    hide Slot, Forest, FatOk, OneCell;
    forall b | b in t.dirs
      ensures EndsOnce(g, disk', t.chains[b])
    {
      var chain := t.chains[b];
      forall q, r | In(g, chain, q) && In(g, chain, r) && Before(q, r) && Slot(g, disk', chain, q)[0] == 0
        ensures Slot(g, disk', chain, r)[0] == 0
      {
        OthersStay(g, disk, disk', fat, t, d, p, b, q);
        if (b, r) != (d, p) {
          OthersStay(g, disk, disk', fat, t, d, p, b, r);
        }
      }
    }
  }

  /** A live entry at `p` of `d`, where there was none: the others stay. */
  lemma FilledGains(g: Layout, disk: Disk, disk': Disk, fat: Fat, t: Tree, d: nat, p: Pos, e: DirEntry)
    requires FatOk(fat) && Forest(fat, t.chains) && d in t.dirs && t.dirs <= t.chains.Keys && In(g, t.chains[d], p)
    requires OneCell(g, disk, disk', t.chains[d][p.i], p.k, p.j) && Slot(g, disk', t.chains[d], p) == e && IsLive(e)
    requires !IsLive(Slot(g, disk, t.chains[d], p))
    ensures Gains(g, disk, t, disk', t, d, p, e)
  {
    hide Slot, Forest, FatOk, OneCell, IsDot;
    forall b, q, x
      ensures Holds(g, disk', t, b, q, x) <==> Holds(g, disk, t, b, q, x) || (b == d && q == p && x == e)
    {
      if b in t.dirs && In(g, t.chains[b], q) && (b, q) != (d, p) {
        OthersStay(g, disk, disk', fat, t, d, p, b, q);
      }
    }
  }

  // ---- From what the operations do to the disk ----

  /** One sector changes: every slot of another sector stays. */
  lemma SectorChange(g: Layout, disk: Disk, disk': Disk, c: nat, k: nat, b: nat, m: nat, i: nat)
    requires |disk| == g.blocks && ClusterIn(g, c) && k < g.sectorsPerCluster && (b, m) != (c, k)
    requires |disk'| == g.blocks && forall lba :: 0 <= lba < g.blocks && lba != DataLba(g, c, k) ==> disk'[lba] == disk[lba]
    ensures Cell(g, disk', b, m, i) == Cell(g, disk, b, m, i)
  {
    if ClusterIn(g, b) && m < g.sectorsPerCluster && i < 16 {
      ClusterAddress(g, b, m);
      ClusterAddress(g, c, k);
      if b != c {
        ClustersDisjoint(g, b, c, DataLba(g, b, m));
      }
    }
  }

  /** The slots of a sector into which an entry was put. */
  lemma PlacedSlots(s: Sector, j: nat, e: DirEntry, i: nat)
    requires j < 16 && i < 16 && (s[32 * j] == 0 && j + 1 < 16 ==> s[32 * j + 32] == 0)
    ensures if i == j then EntryAt(Placed(s, j, e), i) == e
      else EntryAt(Placed(s, j, e), i) == EntryAt(s, i) || (EntryAt(s, i)[0] == 0 && EntryAt(Placed(s, j, e), i)[0] == 0)
  {
    var r := Placed(s, j, e);
    if s[32 * j] == 0 && j + 1 < 16 {
      assert r == s[..32 * j] + e + seq(32, _ => 0) + s[32 * j + 64..];
    } else {
      assert r == s[..32 * j] + e + s[32 * j + 32..];
    }
    if i == j {
      assert r[32 * j..32 * j + 32] == e;
    } else if i < j {
      assert EntryAt(r, i) == EntryAt(s, i) by {
        assert forall x :: 0 <= x < 32 * j ==> r[x] == s[x];
      }
    } else if i == j + 1 && s[32 * j] == 0 {
      assert EntryAt(r, i)[0] == 0 && EntryAt(s, i)[0] == 0;
    } else {
      assert EntryAt(r, i) == EntryAt(s, i) by {
        assert forall x :: 32 * i <= x < 512 ==> r[x] == s[x];
      }
    }
  }

  /** The `n`-th cluster of a walk inside the volume is that of the chain. */
  lemma WalkOnChain(g: Layout, fat: Fat, d: nat, chain: seq<nat>, n: nat)
    requires FatOk(fat) && |fat| == g.clusterCount + 2 && IsChain(fat, d, chain) && forall i :: 0 <= i <= n ==> ClusterIn(g, Walk(fat, d, i))
    ensures n < |chain| && Walk(fat, d, n) == chain[n]
  {
    ChainIsWalk(fat, d, chain, |chain| - 1);
    assert Walk(fat, d, |chain|) == fat[chain[|chain| - 1]] >= EOC_MIN;
    assert !ClusterIn(g, Walk(fat, d, |chain|));
    if n < |chain| {
      ChainIsWalk(fat, d, chain, n);
    }
  }

  /** An entry put in place is the one slot that changed, and nothing is free before it. */
  lemma PlacedCell(g: Layout, before: Disk, after: Disk, fat: Fat, t: Tree, d: nat, n: nat, e: DirEntry) returns (p: Pos)
    requires |before| == g.blocks && |fat| == g.clusterCount + 2 && FatOk(fat) && Forest(fat, t.chains) && d in t.chains
    requires EndsOnce(g, before, t.chains[d]) && InPlace(g, before, after, fat, d, n, e)
    ensures |after| == g.blocks && In(g, t.chains[d], p) && OneCell(g, before, after, t.chains[d][p.i], p.k, p.j)
    ensures Slot(g, after, t.chains[d], p) == e && !IsLive(Slot(g, before, t.chains[d], p))
    ensures forall q :: In(g, t.chains[d], q) && Before(q, p) ==> Slot(g, before, t.chains[d], q)[0] != 0
  {
    hide Placed, FatOk, IsDot;
    var chain, c := t.chains[d], Walk(fat, d, n);
    WalkOnChain(g, fat, d, chain, n);
    var k: nat, j: nat :| k < g.sectorsPerCluster && j < 16 && PlacedAt(g, before, after, c, e, k, j);
    p := Pos(n, k, j);
    var s := before[DataLba(g, c, k)];
    assert EntryAt(s, j)[0] == s[32 * j];
    if s[32 * j] == 0 && j + 1 < 16 {
      assert Before(p, Pos(n, k, j + 1)) && Slot(g, before, chain, p)[0] == 0;
      assert Slot(g, before, chain, Pos(n, k, j + 1))[0] == s[32 * j + 32];
    }
    forall b: nat, m: nat, i: nat | (b, m, i) != (c, k, j)
      ensures Cell(g, after, b, m, i) == Cell(g, before, b, m, i) || (Cell(g, before, b, m, i)[0] == 0 && Cell(g, after, b, m, i)[0] == 0)
    {
      if (b, m) != (c, k) {
        SectorChange(g, before, after, c, k, b, m, i);
      } else if i < 16 {
        PlacedSlots(s, j, e, i);
      }
    }
    PlacedSlots(s, j, e, j);
    forall q | In(g, chain, q) && Before(q, p)
      ensures Slot(g, before, chain, q)[0] != 0
    {
      FullBefore(g, before, fat, d, chain, n, k, j, q);
    }
  }

  lemma FullBefore(g: Layout, disk: Disk, fat: Fat, d: nat, chain: seq<nat>, n: nat, k: nat, j: nat, q: Pos)
    requires |disk| == g.blocks && |fat| == g.clusterCount + 2 && IsChain(fat, d, chain) && FullTo(g, disk, fat, d, n)
    requires In(g, chain, Pos(n, k, j)) && In(g, chain, q) && Before(q, Pos(n, k, j)) && ClusterIn(g, chain[n])
    requires forall m {:trigger DataLba(g, chain[n], m)} :: 0 <= m < k ==> FullSector(disk[DataLba(g, chain[n], m)])
    requires forall i :: 0 <= i < j ==> !IsFreeSlot(disk[DataLba(g, chain[n], k)], i)
    ensures Slot(g, disk, chain, q)[0] != 0
  {
    ChainIsWalk(fat, d, chain, q.i);
    assert ClusterIn(g, chain[q.i]);
    var s := disk[DataLba(g, chain[q.i], q.k)];
    assert EntryAt(s, q.j)[0] == s[32 * q.j];
    if q.i < n {
      assert FullCluster(g, disk, Walk(fat, d, q.i));
      assert FullSector(s);
    } else if q.k < k {
      assert FullSector(s);
    }
    assert !IsFreeSlot(s, q.j);
  }

  /** An entry added in place keeps the tree. */
  lemma PlaceKeeps(g: Layout, before: Disk, after: Disk, fat: Fat, t: Tree, d: nat, n: nat, e: DirEntry, loose: Option<nat>)
    requires TreeOk(g, before, fat, t, loose) && d in t.dirs && InPlace(g, before, after, fat, d, n, e) && IsLive(e)
    requires Fits(g, t, loose, e)
    ensures TreeOk(g, after, fat, t, None)
  {
    hide Forest, FatOk, InPlace, OneCell, EndsOnce, Holds, IsDot, NamedOnce, ClusterOf, IsDirectory, Slot;
    var p := PlacedCell(g, before, after, fat, t, d, n, e);
    FilledEnds(g, before, after, fat, t, d, p);
    FilledGains(g, before, after, fat, t, d, p, e);
    GainKeeps(g, before, t, after, t, d, p, e, loose);
  }

  // ---- An entry in a new cluster ----

  /** Clusters other than `c` hold what they held. */
  lemma OtherCells(g: Layout, before: Disk, after: Disk, c: nat, b: nat, k: nat, j: nat)
    requires |before| == |after| == g.blocks && ClusterIn(g, c) && SameDataBut(g, before, after, c) && b != c
    ensures Cell(g, after, b, k, j) == Cell(g, before, b, k, j)
  {
    if ClusterIn(g, b) && k < g.sectorsPerCluster && j < 16 {
      OtherCluster(g, before, after, b, c);
    }
  }

  /** A cluster with `first` in its first sector and zeros behind. */
  lemma NewCells(g: Layout, before: Disk, after: Disk, c: nat, first: Sector, k: nat, j: nat)
    requires |before| == |after| == g.blocks && ClusterIn(g, c) && NewSectors(g, before, after, c, first) && k < g.sectorsPerCluster && j < 16
    ensures if k == 0 then Cell(g, after, c, k, j) == EntryAt(first, j) else Cell(g, after, c, k, j)[0] == 0
  {
    if k > 0 {
      assert after[DataLba(g, c, k)] == seq(512, _ => 0);
      assert EntryAt(seq(512, _ => 0), j)[0] == 0;
    }
  }

  lemma OnlyEntrySlots(e: DirEntry, j: nat)
    requires j < 16
    ensures if j == 0 then EntryAt(OnlyEntry(e), j) == e else EntryAt(OnlyEntry(e), j)[0] == 0
  {
  }

  ghost function Longer(t: Tree, d: nat, c: nat): Tree
    requires d in t.chains
  {
    t.(chains := t.chains[d := t.chains[d] + [c]])
  }

  /** The slots of the directory that was extended, and of the others. */
  lemma LongerSlots(g: Layout, before: Disk, after: Disk, fat: Fat, t: Tree, d: nat, c: nat, e: DirEntry, b: nat, q: Pos)
    requires |before| == |after| == g.blocks && |fat| == g.clusterCount + 2 && FatOk(fat) && Forest(fat, t.chains) && d in t.chains && b in t.chains
    requires ClusterIn(g, c) && fat[c] == FREE && NewSectors(g, before, after, c, OnlyEntry(e)) && In(g, Longer(t, d, c).chains[b], q)
    ensures if b == d && q.i == |t.chains[d]|
            then if q.k == 0 && q.j == 0 then Slot(g, after, Longer(t, d, c).chains[b], q) == e else Slot(g, after, Longer(t, d, c).chains[b], q)[0] == 0
            else In(g, t.chains[b], q) && Slot(g, after, Longer(t, d, c).chains[b], q) == Slot(g, before, t.chains[b], q)
  {
    hide Cell, FatOk, NewSectors, OnlyEntry;
    if b == d && q.i == |t.chains[d]| {
      NewCells(g, before, after, c, OnlyEntry(e), q.k, q.j);
      OnlyEntrySlots(e, q.j);
    } else {
      FreeIsOutside(fat, b, t.chains[b], c);
      assert SameDataBut(g, before, after, c) by { NewIsBut(g, before, after, c, OnlyEntry(e)); }
      OtherCells(g, before, after, c, t.chains[b][q.i], q.k, q.j);
    }
  }

  lemma NewIsBut(g: Layout, before: Disk, after: Disk, c: nat, first: Sector)
    requires |before| == g.blocks && ClusterIn(g, c) && NewSectors(g, before, after, c, first)
    ensures SameDataBut(g, before, after, c) && |after| == g.blocks
  {
  }

  lemma LongerEnds(g: Layout, before: Disk, after: Disk, fat: Fat, t: Tree, d: nat, c: nat, e: DirEntry)
    requires |before| == |after| == g.blocks && |fat| == g.clusterCount + 2 && FatOk(fat) && Forest(fat, t.chains) && d in t.dirs
    requires t.dirs <= t.chains.Keys && ClusterIn(g, c) && fat[c] == FREE && NewSectors(g, before, after, c, OnlyEntry(e)) && e[0] != 0
    requires forall b :: b in t.dirs ==> EndsOnce(g, before, t.chains[b])
    requires forall q :: In(g, t.chains[d], q) ==> Slot(g, before, t.chains[d], q)[0] != 0
    ensures forall b :: b in t.dirs ==> EndsOnce(g, after, Longer(t, d, c).chains[b])
  {
    hide Slot, Forest, FatOk, NewSectors, OnlyEntry;
    forall b | b in t.dirs
      ensures EndsOnce(g, after, Longer(t, d, c).chains[b])
    {
      var chain := Longer(t, d, c).chains[b];
      forall q, r | In(g, chain, q) && In(g, chain, r) && Before(q, r) && Slot(g, after, chain, q)[0] == 0
        ensures Slot(g, after, chain, r)[0] == 0
      {
        LongerSlots(g, before, after, fat, t, d, c, e, b, q);
        LongerSlots(g, before, after, fat, t, d, c, e, b, r);
      }
    }
  }

  lemma LongerGains(g: Layout, before: Disk, after: Disk, fat: Fat, t: Tree, d: nat, c: nat, e: DirEntry)
    requires |before| == |after| == g.blocks && |fat| == g.clusterCount + 2 && FatOk(fat) && Forest(fat, t.chains) && d in t.dirs
    requires t.dirs <= t.chains.Keys && ClusterIn(g, c) && fat[c] == FREE && NewSectors(g, before, after, c, OnlyEntry(e)) && IsLive(e)
    ensures Gains(g, before, t, after, Longer(t, d, c), d, Pos(|t.chains[d]|, 0, 0), e)
  {
    hide Slot, Forest, FatOk, NewSectors, OnlyEntry, IsDot;
    var t', p := Longer(t, d, c), Pos(|t.chains[d]|, 0, 0);
    forall b, q, x
      ensures Holds(g, after, t', b, q, x) <==> Holds(g, before, t, b, q, x) || (b == d && q == p && x == e)
    {
      if b in t.dirs && In(g, t'.chains[b], q) {
        LongerSlots(g, before, after, fat, t, d, c, e, b, q);
      }
    }
    LongerSlots(g, before, after, fat, t, d, c, e, d, p);
  }

  /** A full directory has no free slot. */
  lemma FullSlots(g: Layout, disk: Disk, fat: Fat, d: nat, chain: seq<nat>, q: Pos)
    requires |disk| == g.blocks && |fat| == g.clusterCount + 2 && IsChain(fat, d, chain) && FullTo(g, disk, fat, d, |chain|) && In(g, chain, q)
    ensures Slot(g, disk, chain, q)[0] != 0
  {
    ChainIsWalk(fat, d, chain, q.i);
    var s := disk[DataLba(g, chain[q.i], q.k)];
    assert FullCluster(g, disk, Walk(fat, d, q.i));
    assert FullSector(s);
    assert !IsFreeSlot(s, q.j);
    assert EntryAt(s, q.j)[0] == s[32 * q.j];
  }

  /** An entry added in a new cluster keeps the tree. */
  lemma ExtendKeeps(g: Layout, before: Disk, after: Disk, raw: seq<nat>, raw': seq<nat>, t: Tree, d: nat, n: nat, c: nat, e: DirEntry, loose: Option<nat>)
    requires |raw| == g.fatSectors * 128 && TreeOk(g, before, FatOf(g, raw), t, loose) && d in t.dirs
    requires InNew(g, before, after, raw, raw', d, n, c, e) && IsLive(e) && Fits(g, t, loose, e)
    ensures |raw'| == g.fatSectors * 128 && TreeOk(g, after, FatOf(g, raw'), Longer(t, d, c), None)
    ensures SameStray(FatOf(g, raw), t.chains, FatOf(g, raw'), Longer(t, d, c).chains)
  {
    hide FatOf, FatOk, Forest, EndsOnce, NamedOnce, IsLive, ClusterOf, IsDirectory, Slot, NewSectors, OnlyEntry, LastOf, SameStray;
    var fat, chain := FatOf(g, raw), t.chains[d];
    var tail := Walk(fat, d, n);
    NewIsBut(g, before, after, c, OnlyEntry(e));
    ChainOf(fat, t.chains, d);
    WalkOnChain(g, fat, d, chain, n);
    GrownStep(g, raw, after := raw', chains := t.chains, parent := d, tail := tail, x := c);
    GrownStray(g, raw, after := raw', chains := t.chains, parent := d, tail := tail, x := c);
    LastIsEnd(fat, d, chain, tail, n);
    forall q | In(g, chain, q)
      ensures Slot(g, before, chain, q)[0] != 0
    {
      FullSlots(g, before, fat, d, chain, q);
    }
    assert e[0] != 0 by { LiveStarts(e); }
    LongerEnds(g, before, after, fat, t, d, c, e);
    LongerGains(g, before, after, fat, t, d, c, e);
    GainKeeps(g, before, t, after, Longer(t, d, c), d, Pos(|chain|, 0, 0), e, loose);
    FatOfOk(g, raw');
  }

  lemma ChainOf(fat: Fat, chains: Chains, d: nat)
    requires Forest(fat, chains) && d in chains
    ensures IsChain(fat, d, chains[d])
  {
  }

  lemma LiveStarts(e: DirEntry)
    requires IsLive(e)
    ensures e[0] != 0
  {
  }

  lemma LastIsEnd(fat: Fat, d: nat, chain: seq<nat>, tail: nat, n: nat)
    requires FatOk(fat) && IsChain(fat, d, chain) && LastOf(fat, d, tail) && n < |chain| && tail == chain[n]
    ensures n + 1 == |chain|
  {
    TailIs(fat, d, chain, tail);
    ChainDistinct(fat, d, chain);
  }

  // ---- Finding and dropping an entry ----

  /** Names that the path resolution hands on: never "." or "..". */
  ghost predicate NotDots(wanted: DirEntry -> bool) {
    forall e :: wanted(e) ==> !IsDot(e)
  }

  /** `p` is the first slot of the directory with a match. */
  ghost predicate FirstAt(g: Layout, disk: Disk, chain: seq<nat>, p: Pos, wanted: DirEntry -> bool) {
    && In(g, chain, p) && IsValidEntry(Slot(g, disk, chain, p)) && wanted(Slot(g, disk, chain, p))
    && forall q :: In(g, chain, q) && Before(q, p) ==> !(IsValidEntry(Slot(g, disk, chain, q)) && wanted(Slot(g, disk, chain, q)))
  }

  lemma OneFirst(g: Layout, disk: Disk, chain: seq<nat>, p: Pos, q: Pos, wanted: DirEntry -> bool)
    requires FirstAt(g, disk, chain, p, wanted) && FirstAt(g, disk, chain, q, wanted)
    ensures p == q
  {
    hide Slot, IsValidEntry;
    assert p == q || Before(p, q) || Before(q, p);
  }

  /** The search of the driver finds the first slot with a match. */
  lemma MatchIsFirst(g: Layout, disk: Disk, fat: Fat, d: nat, chain: seq<nat>, wanted: DirEntry -> bool, c: nat, k: nat, j: nat) returns (p: Pos)
    requires |disk| == g.blocks && |fat| == g.clusterCount + 2 && FatOk(fat) && IsChain(fat, d, chain)
    requires ClusterIn(g, c) && k < g.sectorsPerCluster && j < 16 && FirstMatch(g, disk, fat, d, wanted, c, k, j)
    ensures FirstAt(g, disk, chain, p, wanted) && chain[p.i] == c && p.k == k && p.j == j
  {
    hide IsValidEntry, FatOk, MissesSectors, Misses;
    var n: nat :| Passes(g, disk, fat, d, n, wanted) && c == Walk(fat, d, n);
    WalkOnChain(g, fat, d, chain, n);
    p := Pos(n, k, j);
    forall q | In(g, chain, q) && Before(q, p)
      ensures !(IsValidEntry(Slot(g, disk, chain, q)) && wanted(Slot(g, disk, chain, q)))
    {
      ChainIsWalk(fat, d, chain, q.i);
      MissedSlot(g, disk, chain[q.i], if q.i < n then g.sectorsPerCluster else k, wanted, q.k, q.j, j);
    }
  }

  lemma MissedSlot(g: Layout, disk: Disk, c: nat, sectors: nat, wanted: DirEntry -> bool, k: nat, j: nat, last: nat)
    requires |disk| == g.blocks && ClusterIn(g, c) && k < g.sectorsPerCluster && j < 16 && sectors <= g.sectorsPerCluster && last < 16
    requires MissesSectors(g, disk, c, sectors, wanted)
    requires k < sectors || (k == sectors && j < last && Misses(disk[DataLba(g, c, k)], last, wanted))
    ensures !(IsValidEntry(Cell(g, disk, c, k, j)) && wanted(Cell(g, disk, c, k, j)))
  {
    hide IsValidEntry;
    if k < sectors {
      assert Misses(disk[DataLba(g, c, k)], 16, wanted);
    }
  }

  /** What the search finds in a live directory is a live entry. */
  lemma FoundHolds(g: Layout, disk: Disk, fat: Fat, t: Tree, loose: Option<nat>, d: nat, wanted: DirEntry -> bool, e: DirEntry) returns (p: Pos)
    requires TreeOk(g, disk, fat, t, loose) && d in t.dirs && NotDots(wanted) && Finds(g, disk, fat, d, wanted, e)
    ensures Holds(g, disk, t, d, p, e) && FirstAt(g, disk, t.chains[d], p, wanted)
  {
    hide FatOk, Forest, NamedOnce, EndsOnce, IsValidEntry, IsDot, EntryAt, FirstMatch, FirstAt;
    var c: nat, k: nat, j: nat :| ClusterIn(g, c) && k < g.sectorsPerCluster && j < 16 && FirstMatch(g, disk, fat, d, wanted, c, k, j)
      && e == EntryAt(disk[DataLba(g, c, k)], j);
    ChainOf(fat, t.chains, d);
    p := MatchIsFirst(g, disk, fat, d, t.chains[d], wanted, c, k, j);
    FirstIs(g, disk, t.chains[d], p, wanted);
  }

  lemma FirstIs(g: Layout, disk: Disk, chain: seq<nat>, p: Pos, wanted: DirEntry -> bool)
    requires FirstAt(g, disk, chain, p, wanted)
    ensures In(g, chain, p) && IsValidEntry(Slot(g, disk, chain, p)) && wanted(Slot(g, disk, chain, p))
  {
  }

  /** The cells of a sector in which an entry was marked deleted. */
  lemma DeletedCell(g: Layout, before: Disk, mid: Disk, after: Disk, c: nat, k: nat, j: nat)
    requires |before| == |mid| == g.blocks && SameData(g, before, mid) && ClusterIn(g, c) && k < g.sectorsPerCluster && j < 16
    requires MarkedDeleted(g, mid, after, c, k, j)
    ensures |after| == g.blocks && OneCell(g, before, after, c, k, j) && Cell(g, after, c, k, j)[0] == DELETED
  {
    var s := mid[DataLba(g, c, k)];
    forall b: nat, m: nat, i: nat | (b, m, i) != (c, k, j)
      ensures Cell(g, after, b, m, i) == Cell(g, before, b, m, i)
    {
      SameCell(g, before, mid, b, m, i);
      if (b, m) != (c, k) {
        SectorChange(g, mid, after, c, k, b, m, i);
      } else if i < 16 {
        assert EntryAt(s[32 * j := DELETED], i) == EntryAt(s, i);
      }
    }
    assert EntryAt(s[32 * j := DELETED], j)[0] == DELETED;
  }

  lemma SameCell(g: Layout, before: Disk, mid: Disk, c: nat, k: nat, j: nat)
    requires |before| == |mid| == g.blocks && SameData(g, before, mid)
    ensures Cell(g, mid, c, k, j) == Cell(g, before, c, k, j)
  {
  }

  /** An entry that is found and marked deleted leaves its chain loose. */
  lemma DropKeeps(g: Layout, before: Disk, after: Disk, fat: Fat, fat': Fat, t: Tree, d: nat, wanted: DirEntry -> bool, e: DirEntry)
    requires TreeOk(g, before, fat, t, None) && d in t.dirs && NotDots(wanted) && Finds(g, before, fat, d, wanted, e)
    requires |fat'| == |fat| && FatOk(fat') && IsChain(fat', d, t.chains[d]) && EntryRemoved(g, before, after, fat', d, wanted)
    ensures TreeOk(g, after, fat, t, if ClusterOf(e) == 0 then None else Some(ClusterOf(e)))
    ensures forall b, q, x :: Holds(g, after, t, b, q, x) ==> Holds(g, before, t, b, q, x)
  {
    hide FatOk, Forest, NamedOnce, EndsOnce, IsValidEntry, IsDot, EntryAt, FirstMatch, FirstAt, ClusterOf, Cell, IsChain,
      MarkedDeleted, OneCell, Gains;
    var chain := t.chains[d];
    var p := FoundHolds(g, before, fat, t, None, d, wanted, e);
    var mid: Disk :| |mid| == g.blocks && SameData(g, before, mid) && FirstDeleted(g, mid, after, fat', d, wanted);
    var c: nat, k: nat, j: nat :| ClusterIn(g, c) && k < g.sectorsPerCluster && j < 16 && FirstMatch(g, mid, fat', d, wanted, c, k, j)
      && MarkedDeleted(g, mid, after, c, k, j);
    var q := MatchIsFirst(g, mid, fat', d, chain, wanted, c, k, j);
    FirstIs(g, mid, chain, q, wanted);
    SameFirst(g, before, mid, chain, q, wanted);
    OneFirst(g, before, chain, p, q, wanted);
    DeletedCell(g, before, mid, after, c, k, j);
    NothingBefore(g, before, chain, p, e);
    FilledEnds(g, before, after, fat, t, d, p);
    Undeleted(g, before, after, fat, t, d, p, e);
    NoZero(fat, t.chains);
    LossKeeps(g, before, t, after, d, p, e);
    GainsMore(g, after, before, t, d, p, e);
  }

  lemma GainsMore(g: Layout, disk: Disk, disk': Disk, t: Tree, d: nat, p: Pos, e: DirEntry)
    requires Gains(g, disk, t, disk', t, d, p, e)
    ensures forall b, q, x :: Holds(g, disk, t, b, q, x) ==> Holds(g, disk', t, b, q, x)
  {
    hide Holds;
  }

  lemma NoZero(fat: Fat, chains: Chains)
    requires Forest(fat, chains)
    ensures forall h :: h in chains ==> h >= 2
  {
    forall h | h in chains
      ensures h >= 2
    {
      assert chains[h][0] == h && ValidCluster(fat, chains[h][0]);
    }
  }

  lemma SameFirst(g: Layout, before: Disk, mid: Disk, chain: seq<nat>, p: Pos, wanted: DirEntry -> bool)
    requires |before| == |mid| == g.blocks && SameData(g, before, mid) && FirstAt(g, mid, chain, p, wanted)
    ensures FirstAt(g, before, chain, p, wanted)
  {
    hide Cell, IsValidEntry, SameData;
    forall q | In(g, chain, q)
      ensures Slot(g, mid, chain, q) == Slot(g, before, chain, q)
    {
      SameCell(g, before, mid, chain[q.i], q.k, q.j);
    }
  }

  lemma NothingBefore(g: Layout, disk: Disk, chain: seq<nat>, p: Pos, e: DirEntry)
    requires EndsOnce(g, disk, chain) && In(g, chain, p) && Slot(g, disk, chain, p) == e && IsLive(e)
    ensures forall q :: In(g, chain, q) && Before(q, p) ==> Slot(g, disk, chain, q)[0] != 0
  {
    hide Slot;
  }

  /** Seen backwards, a deletion brings the entry in. */
  lemma Undeleted(g: Layout, before: Disk, after: Disk, fat: Fat, t: Tree, d: nat, p: Pos, e: DirEntry)
    requires FatOk(fat) && Forest(fat, t.chains) && t.dirs <= t.chains.Keys && Holds(g, before, t, d, p, e)
    requires OneCell(g, before, after, t.chains[d][p.i], p.k, p.j) && Slot(g, after, t.chains[d], p)[0] == DELETED
    ensures Gains(g, after, t, before, t, d, p, e) && !Holds(g, after, t, d, p, e)
  {
    hide FatOk, Forest, Cell, IsDot;
    assert OneCell(g, after, before, t.chains[d][p.i], p.k, p.j);
    FilledGains(g, after, before, fat, t, d, p, e);
  }

  // ---- A chain is given up ----

  ghost function Less(t: Tree, h: nat): Tree {
    Tree(t.chains - {h}, t.dirs - {h})
  }

  /** The loose chain is freed; if it is a directory, it has no live entry. */
  lemma FreeKeeps(g: Layout, disk: Disk, fat: Fat, fat': Fat, t: Tree, h: nat)
    requires TreeOk(g, disk, fat, t, Some(h)) && h in t.chains && h != g.root && Cleared(fat, fat', t.chains[h]) && FatOk(fat')
    requires forall p, e :: !Holds(g, disk, t, h, p, e)
    ensures TreeOk(g, disk, fat', Less(t, h), None) && SameStray(fat, t.chains, fat', Less(t, h).chains)
  {
    hide FatOk, Forest, EndsOnce, ClusterOf, IsDirectory, Cleared, Holds, SameStray;
    ReleaseKeepsForest(fat, fat', t.chains, h);
    ReleaseStray(fat, fat', t.chains, h);
    var t' := Less(t, h);
    ClearedSize(fat, fat', t.chains[h]);
    LessLive(g, disk, t, h);
    forall k | k in t'.chains && k != g.root
      ensures Named(g, disk, t', k)
    {
      var b, q, x :| Holds(g, disk, t, b, q, x) && ClusterOf(x) == k;
      assert Holds(g, disk, t', b, q, x);
    }
  }

  lemma LessLive(g: Layout, disk: Disk, t: Tree, h: nat)
    requires forall p, e :: !Holds(g, disk, t, h, p, e)
    ensures SameLive(g, disk, t, disk, Less(t, h))
  {
    hide IsLive, Slot;
  }

  lemma ClearedSize(fat: Fat, fat': Fat, chain: seq<nat>)
    requires Cleared(fat, fat', chain)
    ensures |fat'| == |fat|
  {
  }

  // ---- A new directory ----

  ghost function With(t: Tree, own: nat): Tree {
    Tree(t.chains[own := [own]], t.dirs + {own})
  }

  /** The slots of a new directory: the two dot entries and end marks. */
  lemma DotSlots(own: nat, parent: nat, j: nat)
    requires own < U32 && parent < U32 && j < 16
    ensures var e := EntryAt(DotSector(own, parent), j); !IsLive(e) && (e[0] == 0 <==> j >= 2)
  {
    var s := DotSector(own, parent);
    var one, two := [0x2E] + seq(10, _ => 0x20), [0x2E, 0x2E] + seq(9, _ => 0x20);
    var e0, e1 := MakeEntry(one, ATTR_DIRECTORY, own), MakeEntry(two, ATTR_DIRECTORY, parent);
    if j == 0 {
      assert EntryAt(s, 0) == e0;
      assert e0[0] == e0[..11][0] && e0[1] == e0[..11][1];
    } else if j == 1 {
      assert EntryAt(s, 1) == e1;
      assert e1[0] == e1[..11][0] && e1[1] == e1[..11][1] && e1[2] == e1[..11][2];
    } else {
      assert s[32 * j] == 0;
      assert EntryAt(s, j)[0] == s[32 * j];
    }
  }

  lemma OwnSlots(g: Layout, before: Disk, mid: Disk, own: nat, parent: nat, q: Pos)
    requires |before| == |mid| == g.blocks && ClusterIn(g, own) && parent < U32 && In(g, [own], q)
    requires NewSectors(g, before, mid, own, DotSector(own, parent))
    ensures !IsLive(Slot(g, mid, [own], q)) && (Slot(g, mid, [own], q)[0] == 0 <==> q.k > 0 || q.j >= 2)
  {
    hide Cell, NewSectors, DotSector, IsDot;
    NewCells(g, before, mid, own, DotSector(own, parent), q.k, q.j);
    DotSlots(own, parent, q.j);
  }

  lemma OwnEnds(g: Layout, before: Disk, mid: Disk, own: nat, parent: nat)
    requires |before| == |mid| == g.blocks && ClusterIn(g, own) && parent < U32 && NewSectors(g, before, mid, own, DotSector(own, parent))
    ensures EndsOnce(g, mid, [own])
  {
    hide Slot, NewSectors, DotSector, IsLive;
    forall p, q | In(g, [own], p) && In(g, [own], q) && Before(p, q) && Slot(g, mid, [own], p)[0] == 0
      ensures Slot(g, mid, [own], q)[0] == 0
    {
      OwnSlots(g, before, mid, own, parent, p);
      OwnSlots(g, before, mid, own, parent, q);
    }
  }

  lemma OldSlots(g: Layout, before: Disk, mid: Disk, fat: Fat, t: Tree, own: nat, b: nat, q: Pos)
    requires |before| == |mid| == g.blocks && |fat| == g.clusterCount + 2 && FatOk(fat) && Forest(fat, t.chains) && b in t.chains
    requires ClusterIn(g, own) && fat[own] == FREE && SameDataBut(g, before, mid, own) && In(g, t.chains[b], q)
    ensures b != own && Slot(g, mid, t.chains[b], q) == Slot(g, before, t.chains[b], q)
  {
    hide Cell, FatOk;
    FreeIsOutside(fat, b, t.chains[b], own);
    assert t.chains[b][0] == b;
    OtherCells(g, before, mid, own, t.chains[b][q.i], q.k, q.j);
  }

  lemma OwnLive(g: Layout, before: Disk, mid: Disk, fat: Fat, t: Tree, own: nat, parent: nat)
    requires |before| == |mid| == g.blocks && |fat| == g.clusterCount + 2 && FatOk(fat) && Forest(fat, t.chains) && t.dirs <= t.chains.Keys
    requires ClusterIn(g, own) && fat[own] == FREE && parent < U32 && NewSectors(g, before, mid, own, DotSector(own, parent))
    ensures own !in t.chains && SameLive(g, before, t, mid, With(t, own))
    ensures (forall d :: d in t.dirs ==> EndsOnce(g, before, t.chains[d])) ==> forall d :: d in t.dirs ==> EndsOnce(g, mid, t.chains[d])
  {
    hide Slot, FatOk, NewSectors, DotSector, IsLive;
    NewIsBut(g, before, mid, own, DotSector(own, parent));
    FreeIsNoHead(fat, t.chains, own);
    var t' := With(t, own);
    forall b, q, x
      ensures Holds(g, mid, t', b, q, x) <==> Holds(g, before, t, b, q, x)
    {
      if b == own && In(g, [own], q) {
        OwnSlots(g, before, mid, own, parent, q);
      } else if b in t.dirs && In(g, t.chains[b], q) {
        OldSlots(g, before, mid, fat, t, own, b, q);
      }
    }
    forall d, p | d in t.dirs && In(g, t.chains[d], p)
      ensures Slot(g, mid, t.chains[d], p) == Slot(g, before, t.chains[d], p)
    {
      OldSlots(g, before, mid, fat, t, own, d, p);
    }
  }

  lemma FreeIsNoHead(fat: Fat, chains: Chains, c: nat)
    requires FatOk(fat) && Forest(fat, chains) && ValidCluster(fat, c) && fat[c] == FREE
    ensures c !in chains
  {
    if c in chains {
      FreeIsOutside(fat, c, chains[c], c);
      assert false;
    }
  }

  /** A free cluster has become an empty directory that nothing names yet. */
  lemma OwnKeeps(g: Layout, before: Disk, mid: Disk, fat: Fat, t: Tree, own: nat, parent: nat)
    requires TreeOk(g, before, fat, t, None) && ClusterIn(g, own) && fat[own] == FREE && parent < U32 && |mid| == g.blocks
    requires NewSectors(g, before, mid, own, DotSector(own, parent)) && FatOk(fat[own := EOC_MAX])
    ensures TreeOk(g, mid, fat[own := EOC_MAX], With(t, own), Some(own)) && own !in t.chains
    ensures SameStray(fat, t.chains, fat[own := EOC_MAX], With(t, own).chains)
  {
    hide FatOk, Forest, EndsOnce, ClusterOf, IsDirectory, Holds, NewSectors, DotSector, SameStray;
    AllocKeepsForest(fat, t.chains, own);
    AllocStray(fat, t.chains, own);
    OwnLive(g, before, mid, fat, t, own, parent);
    OwnEnds(g, before, mid, own, parent);
    var t' := With(t, own);
    forall h | h in t'.chains && h != g.root && h != own
      ensures Named(g, mid, t', h)
    {
      var b, q, x :| Holds(g, before, t, b, q, x) && ClusterOf(x) == h;
      assert Holds(g, mid, t', b, q, x);
    }
  }

  // ---- The operations ----

  lemma AddKeeps(g: Layout, before: Disk, after: Disk, raw: seq<nat>, raw': seq<nat>, t: Tree, d: nat, e: DirEntry, loose: Option<nat>) returns (t': Tree)
    requires |raw| == g.fatSectors * 128 && TreeOk(g, before, FatOf(g, raw), t, loose) && d in t.dirs
    requires EntryAdded(g, before, after, raw, raw', d, e) && IsLive(e) && Fits(g, t, loose, e)
    ensures |raw'| == g.fatSectors * 128 && TreeOk(g, after, FatOf(g, raw'), t', None)
    ensures SameStray(FatOf(g, raw), t.chains, FatOf(g, raw'), t'.chains)
    ensures t'.dirs == t.dirs && t'.chains.Keys == t.chains.Keys
  {
    hide FatOf, TreeOk, IsLive, Fits, InPlace, InNew, Stray;
    DirIsChain(g, before, FatOf(g, raw), t, loose, d);
    if raw' == raw && exists n: nat :: InPlace(g, before, after, FatOf(g, raw), d, n, e) {
      var n: nat :| InPlace(g, before, after, FatOf(g, raw), d, n, e);
      PlaceKeeps(g, before, after, FatOf(g, raw), t, d, n, e, loose);
      t' := t;
    } else {
      var n: nat, c: nat :| InNew(g, before, after, raw, raw', d, n, c, e);
      ExtendKeeps(g, before, after, raw, raw', t, d, n, c, e, loose);
      t' := Longer(t, d, c);
    }
  }

  lemma DirIsChain(g: Layout, disk: Disk, fat: Fat, t: Tree, loose: Option<nat>, d: nat)
    requires TreeOk(g, disk, fat, t, loose) && d in t.dirs
    ensures d in t.chains && |disk| == g.blocks
  {
  }

  /** Names that make an entry the search can see: not empty, not marked deleted, not a dot entry. */
  predicate NameOk(name: seq<Byte>) {
    |name| == 11 && name[0] != 0 && name[0] != DELETED && name[0] != 0x2E
  }

  /** A new entry is live exactly if its name is one of these; `make_83_name` never starts one with a zero or a dot. */
  lemma NewIsLive(name: seq<Byte>, attr: Byte, cluster: nat)
    requires |name| == 11 && name[0] != 0 && name[0] != 0x2E && attr in {ATTR_DIRECTORY, ATTR_ARCHIVE} && cluster < U32
    ensures IsLive(MakeEntry(name, attr, cluster)) <==> NameOk(name)
    ensures IsDirectory(MakeEntry(name, attr, cluster)) <==> attr == ATTR_DIRECTORY
  {
    hide MakeEntry;
    var e := MakeEntry(name, attr, cluster);
    assert e[0] == e[..11][0];
  }

  lemma MkdirKeeps(g: Layout, before: Disk, after: Disk, raw: seq<nat>, raw': seq<nat>, t: Tree, parent: nat, name: seq<Byte>, own: nat) returns (t': Tree)
    requires |raw| == g.fatSectors * 128 && TreeOk(g, before, FatOf(g, raw), t, None) && parent in t.dirs && parent < U32 && NameOk(name)
    requires DirectoryMade(g, before, after, raw, raw', parent, name, own)
    ensures |raw'| == g.fatSectors * 128 && TreeOk(g, after, FatOf(g, raw'), t', None) && own in t'.dirs && own !in t.chains
    ensures SameStray(FatOf(g, raw), t.chains, FatOf(g, raw'), t'.chains)
    ensures t'.dirs == t.dirs + {own} && t'.chains.Keys == t.chains.Keys + {own}
  {
    hide FatOf, TreeOk, IsLive, DotSector, MakeEntry, EntryAdded, ClusterOf, IsDirectory, Stray;
    var e, up := MakeEntry(name, ATTR_DIRECTORY, own), if parent == g.root then 0 else parent;
    var mid: Disk :| |mid| == g.blocks && NewSectors(g, before, mid, own, DotSector(own, up))
      && EntryAdded(g, mid, after, Stored(raw, own, EOC_MAX), raw', parent, e);
    StoredFat(g, raw, own, EOC_MAX);
    FatOfOk(g, Stored(raw, own, EOC_MAX));
    OwnKeeps(g, before, mid, FatOf(g, raw), t, own, up);
    NewIsLive(name, ATTR_DIRECTORY, own);
    RootIsNot(g, before, FatOf(g, raw), t, own);
    t' := AddKeeps(g, mid, after, Stored(raw, own, EOC_MAX), raw', With(t, own), parent, e, Some(own));
  }

  lemma RootIsNot(g: Layout, disk: Disk, fat: Fat, t: Tree, own: nat)
    requires TreeOk(g, disk, fat, t, None) && own !in t.chains
    ensures own != g.root
  {
  }

  lemma CreateKeeps(g: Layout, before: Disk, after: Disk, raw: seq<nat>, raw': seq<nat>, t: Tree, parent: nat, name: seq<Byte>) returns (t': Tree)
    requires |raw| == g.fatSectors * 128 && TreeOk(g, before, FatOf(g, raw), t, None) && parent in t.dirs && NameOk(name)
    requires EntryAdded(g, before, after, raw, raw', parent, MakeEntry(name, ATTR_ARCHIVE, 0))
    ensures |raw'| == g.fatSectors * 128 && TreeOk(g, after, FatOf(g, raw'), t', None)
    ensures SameStray(FatOf(g, raw), t.chains, FatOf(g, raw'), t'.chains)
    ensures t'.dirs == t.dirs && t'.chains.Keys == t.chains.Keys
  {
    hide FatOf, TreeOk, IsLive, EntryAdded, ClusterOf, IsDirectory, SameStray;
    NewIsLive(name, ATTR_ARCHIVE, 0);
    t' := AddKeeps(g, before, after, raw, raw', t, parent, MakeEntry(name, ATTR_ARCHIVE, 0), None);
  }

  lemma FoundOk(g: Layout, disk: Disk, t: Tree, d: nat, p: Pos, e: DirEntry)
    requires NamedOnce(g, disk, t, None) && Holds(g, disk, t, d, p, e)
    ensures EntryOk(g.root, t, None, e)
  {
    hide Holds;
  }

  lemma NoneIn(g: Layout, disk: Disk, t: Tree, h: nat)
    ensures h !in t.dirs ==> forall p, e :: !Holds(g, disk, t, h, p, e)
  {
  }

  /** Removing the entry that is found, and the chain it names. */
  lemma RemoveKeeps(g: Layout, before: Disk, after: Disk, raw: seq<nat>, raw': seq<nat>, t: Tree, d: nat, wanted: DirEntry -> bool, e: DirEntry)
    returns (t': Tree)
    requires |raw| == g.fatSectors * 128 && TreeOk(g, before, FatOf(g, raw), t, None) && d in t.dirs && NotDots(wanted)
    requires Finds(g, before, FatOf(g, raw), d, wanted, e) && RemoveEffect(g, raw, raw', ClusterOf(e)) && |raw'| == |raw|
    requires EntryRemoved(g, before, after, FatOf(g, raw'), d, wanted)
    requires IsDirectory(e) ==> ClusterOf(e) != d && forall p, x :: !Holds(g, before, t, ClusterOf(e), p, x)
    ensures TreeOk(g, after, FatOf(g, raw'), t', None)
    ensures SameStray(FatOf(g, raw), t.chains, FatOf(g, raw'), t'.chains)
    ensures t'.dirs == t.dirs - {ClusterOf(e)} && t'.chains.Keys == t.chains.Keys - {ClusterOf(e)}
  {
    hide FatOf, FatOk, Forest, NamedOnce, EndsOnce, IsLive, ClusterOf, IsDirectory, Finds, EntryRemoved, IsChain, FreedUpTo, Holds, Stray;
    var fat, fat', h := FatOf(g, raw), FatOf(g, raw'), ClusterOf(e);
    var p := FoundHolds(g, before, fat, t, None, d, wanted, e);
    FoundOk(g, before, t, d, p, e);
    NoZero(fat, t.chains);
    FatOfOk(g, raw');
    ChainOf(fat, t.chains, d);
    if h == 0 {
      DropKeeps(g, before, after, fat, fat', t, d, wanted, e);
      t' := t;
    } else {
      var chain :| IsChain(fat, h, chain) && FreedUpTo(raw, raw', chain, |chain|);
      ChainOf(fat, t.chains, h);
      ChainUnique(fat, h, chain, t.chains[h]);
      FreedClears(g, raw, raw', chain);
      ReleaseKeepsForest(fat, fat', t.chains, h);
      ChainOf(fat', t.chains - {h}, d);
      DropKeeps(g, before, after, fat, fat', t, d, wanted, e);
      NoneIn(g, after, t, h);
      FreeKeeps(g, after, fat, fat', t, h);
      t' := Less(t, h);
    }
  }

  /** A directory that passed the emptiness test has no live entry. */
  lemma EmptyHasNone(g: Layout, disk: Disk, t: Tree, h: nat)
    requires |disk| == g.blocks && h in t.chains && EndsOnce(g, disk, t.chains[h]) && ChainEmpty(g, disk, t.chains[h])
    ensures forall p, e :: !Holds(g, disk, t, h, p, e)
  {
    hide IsValidEntry, IsDot;
    var chain := t.chains[h];
    forall p | In(g, chain, p)
      ensures !IsLive(Slot(g, disk, chain, p))
    {
      OnlyDotsThere(g, disk, chain, p);
    }
  }

  lemma OnlyDotsThere(g: Layout, disk: Disk, chain: seq<nat>, p: Pos)
    requires |disk| == g.blocks && EndsOnce(g, disk, chain) && ChainEmpty(g, disk, chain) && In(g, chain, p)
    ensures !IsLive(Slot(g, disk, chain, p))
  {
    hide IsDot, EntryAt;
    var c := chain[p.i];
    var s := disk[DataLba(g, c, p.k)];
    assert ClusterOnlyDots(g, disk, c);
    assert OnlyDots(s);
    forall i | 0 <= i <= p.j
      ensures s[32 * i] == 0 ==> EntryAt(s, p.j)[0] == 0
    {
      FirstByte(s, i);
      FirstByte(s, p.j);
      if i < p.j {
        assert Before(Pos(p.i, p.k, i), p) && Slot(g, disk, chain, Pos(p.i, p.k, i)) == EntryAt(s, i);
      }
    }
  }

  lemma FirstByte(s: Sector, i: nat)
    requires i < 16
    ensures EntryAt(s, i)[0] == s[32 * i]
  {
  }

  lemma UnlinkKeeps(g: Layout, before: Disk, after: Disk, raw: seq<nat>, raw': seq<nat>, t: Tree, d: nat, wanted: DirEntry -> bool, e: DirEntry)
    returns (t': Tree)
    requires |raw| == g.fatSectors * 128 == |raw'| && TreeOk(g, before, FatOf(g, raw), t, None) && d in t.dirs && NotDots(wanted)
    requires Finds(g, before, FatOf(g, raw), d, wanted, e) && !IsDirectory(e) && RemoveEffect(g, raw, raw', ClusterOf(e))
    requires EntryRemoved(g, before, after, FatOf(g, raw'), d, wanted)
    ensures TreeOk(g, after, FatOf(g, raw'), t', None)
    ensures SameStray(FatOf(g, raw), t.chains, FatOf(g, raw'), t'.chains)
    ensures t'.dirs == t.dirs - {ClusterOf(e)} && t'.chains.Keys == t.chains.Keys - {ClusterOf(e)}
  {
    hide FatOf, TreeOk, ClusterOf, IsDirectory, Finds, EntryRemoved, RemoveEffect, SameStray;
    t' := RemoveKeeps(g, before, after, raw, raw', t, d, wanted, e);
  }

  /** A directory passes the emptiness test only if it is not the one that names it. */
  lemma RmdirKeeps(g: Layout, before: Disk, after: Disk, raw: seq<nat>, raw': seq<nat>, t: Tree, d: nat, wanted: DirEntry -> bool, e: DirEntry,
                   chain: seq<nat>) returns (t': Tree)
    requires |raw| == g.fatSectors * 128 == |raw'| && TreeOk(g, before, FatOf(g, raw), t, None) && d in t.dirs && NotDots(wanted)
    requires Finds(g, before, FatOf(g, raw), d, wanted, e) && IsDirectory(e) && IsChain(FatOf(g, raw), ClusterOf(e), chain)
    requires ChainEmpty(g, before, chain) && FreedUpTo(raw, raw', chain, |chain|) && EntryRemoved(g, before, after, FatOf(g, raw'), d, wanted)
    ensures TreeOk(g, after, FatOf(g, raw'), t', None)
    ensures SameStray(FatOf(g, raw), t.chains, FatOf(g, raw'), t'.chains)
    ensures t'.dirs == t.dirs - {ClusterOf(e)} && t'.chains.Keys == t.chains.Keys - {ClusterOf(e)}
  {
    hide FatOf, FatOk, Forest, NamedOnce, EndsOnce, IsLive, ClusterOf, IsDirectory, Finds, EntryRemoved, IsChain, FreedUpTo, Holds, ChainEmpty, SameStray;
    var fat, h := FatOf(g, raw), ClusterOf(e);
    var p := FoundHolds(g, before, fat, t, None, d, wanted, e);
    FoundOk(g, before, t, d, p, e);
    NoZero(fat, t.chains);
    ChainOf(fat, t.chains, h);
    ChainUnique(fat, h, chain, t.chains[h]);
    EmptyHasNone(g, before, t, h);
    t' := RemoveKeeps(g, before, after, raw, raw', t, d, wanted, e);
  }

  /** Writing to a file that is found changes no directory. */
  lemma WriteKeeps(g: Layout, before: Disk, after: Disk, fat: Fat, t: Tree, d: nat, wanted: DirEntry -> bool, e: DirEntry, n: nat)
    requires TreeOk(g, before, fat, t, None) && d in t.dirs && NotDots(wanted) && Finds(g, before, fat, d, wanted, e) && !IsDirectory(e)
    requires |after| == g.blocks && (ClusterOf(e) == 0 ==> after == before) && FatFile.OnlyChain(g, before, after, fat, ClusterOf(e), n)
    ensures TreeOk(g, after, fat, t, None)
  {
    hide FatOk, Forest, ClusterOf, IsDirectory, Finds, FatFile.OnlyChain, Slot, IsLive;
    var h := ClusterOf(e);
    var p := FoundHolds(g, before, fat, t, None, d, wanted, e);
    FoundOk(g, before, t, d, p, e);
    if h != 0 {
      forall b, q | b in t.dirs && In(g, t.chains[b], q)
        ensures Slot(g, after, t.chains[b], q) == Slot(g, before, t.chains[b], q)
      {
        ForeignSlot(g, before, after, fat, t, h, n, b, q);
      }
      SameSlotsKeep(g, before, after, t);
    }
  }

  lemma SameSlotsKeep(g: Layout, before: Disk, after: Disk, t: Tree)
    requires t.dirs <= t.chains.Keys && NamedOnce(g, before, t, None) && (forall d :: d in t.dirs ==> EndsOnce(g, before, t.chains[d]))
    requires forall b, q :: b in t.dirs && In(g, t.chains[b], q) ==> Slot(g, after, t.chains[b], q) == Slot(g, before, t.chains[b], q)
    ensures NamedOnce(g, after, t, None) && forall d :: d in t.dirs ==> EndsOnce(g, after, t.chains[d])
  {
    hide Slot, IsLive, ClusterOf, EntryOk;
    forall b, q, x
      ensures Holds(g, after, t, b, q, x) <==> Holds(g, before, t, b, q, x)
    {
    }
    forall h | h in t.chains && h != g.root
      ensures Named(g, after, t, h)
    {
      var b, q, x :| Holds(g, before, t, b, q, x) && ClusterOf(x) == h;
      assert Holds(g, after, t, b, q, x);
    }
  }

  /** The chain of a file shares no cluster with another chain. */
  lemma ForeignSlot(g: Layout, before: Disk, after: Disk, fat: Fat, t: Tree, h: nat, n: nat, b: nat, q: Pos)
    requires |before| == |after| == g.blocks && |fat| == g.clusterCount + 2 && FatOk(fat) && Forest(fat, t.chains)
    requires h in t.chains && b in t.chains && b != h && In(g, t.chains[b], q) && FatFile.OnlyChain(g, before, after, fat, h, n)
    ensures Slot(g, after, t.chains[b], q) == Slot(g, before, t.chains[b], q)
  {
    var c, lba := t.chains[b][q.i], 0;
    if ClusterIn(g, c) {
      lba := DataLba(g, c, q.k);
      ClusterAddress(g, c, q.k);
      if after[lba] != before[lba] {
        var i :| 0 <= i < n && ClusterIn(g, Walk(fat, h, i)) && IsClusterLba(g, Walk(fat, h, i), lba);
        OnOwnChain(g, fat, h, t.chains[h], i);
        assert Disjoint(t.chains[b], t.chains[h]);
        ClustersDisjoint(g, c, Walk(fat, h, i), lba);
      }
    }
  }

  lemma {:induction false} OnOwnChain(g: Layout, fat: Fat, h: nat, chain: seq<nat>, i: nat)
    requires FatOk(fat) && |fat| == g.clusterCount + 2 && IsChain(fat, h, chain) && ClusterIn(g, Walk(fat, h, i))
    ensures i < |chain| && Walk(fat, h, i) == chain[i]
  {
    if i > 0 {
      if ClusterIn(g, Walk(fat, h, i - 1)) {
        OnOwnChain(g, fat, h, chain, i - 1);
      }
    }
  }

  /** An operation that fails without having published anything has changed no live directory. */
  lemma FailKeeps(g: Layout, before: Disk, after: Disk, fat: Fat, t: Tree)
    requires TreeOk(g, before, fat, t, None) && SameFreeData(g, fat, before, after)
    ensures TreeOk(g, after, fat, t, None)
  {
    hide FatOk, Slot, IsLive, NamedOnce, EndsOnce;
    forall b, q | b in t.dirs && In(g, t.chains[b], q)
      ensures Slot(g, after, t.chains[b], q) == Slot(g, before, t.chains[b], q)
    {
      UsedSlot(g, before, after, fat, t.chains, b, q);
    }
    SameSlotsKeep(g, before, after, t);
  }

  lemma UsedSlot(g: Layout, before: Disk, after: Disk, fat: Fat, chains: Chains, b: nat, q: Pos)
    requires |before| == g.blocks && |fat| == g.clusterCount + 2 && FatOk(fat) && Forest(fat, chains) && b in chains
    requires SameFreeData(g, fat, before, after) && In(g, chains[b], q)
    ensures Slot(g, after, chains[b], q) == Slot(g, before, chains[b], q)
  {
    hide FatOk, IsChain, SameFreeData, GeometryOk;
    var c := chains[b][q.i];
    if ClusterIn(g, c) {
      if fat[c] == FREE {
        FreeIsOutside(fat, b, chains[b], c);
        assert false;
      }
      UsedSector(g, before, after, fat, c, q.k);
    }
  }

  lemma UsedSector(g: Layout, before: Disk, after: Disk, fat: Fat, c: nat, k: nat)
    requires |before| == g.blocks && |fat| == g.clusterCount + 2 && SameFreeData(g, fat, before, after)
    requires ClusterIn(g, c) && fat[c] != FREE && k < g.sectorsPerCluster
    ensures |after| == g.blocks && after[DataLba(g, c, k)] == before[DataLba(g, c, k)]
  {
    hide GeometryOk;
    var lba := DataLba(g, c, k);
    ClusterAddress(g, c, k);
    if after[lba] != before[lba] {
      var x: nat :| ClusterIn(g, x) && fat[x] == FREE && IsClusterLba(g, x, lba);
      ClustersDisjoint(g, c, x, lba);
      assert false;
    }
  }

  // ---- Paths ----

  /** The directory that a path of names leads to from `d`. */
  ghost predicate Leads(g: Layout, disk: Disk, fat: Fat, d: nat, path: seq<DirEntry -> bool>, to: nat)
    requires |disk| == g.blocks
    decreases |path|
  {
    if path == [] then to == d
    else exists e :: NotDots(path[0]) && Finds(g, disk, fat, d, path[0], e) && IsDirectory(e) && Leads(g, disk, fat, ClusterOf(e), path[1..], to)
  }

  /** A path from a live directory leads to a live directory. */
  lemma {:induction false} PathIsLive(g: Layout, disk: Disk, fat: Fat, t: Tree, loose: Option<nat>, d: nat, path: seq<DirEntry -> bool>, to: nat)
    requires TreeOk(g, disk, fat, t, loose) && d in t.dirs && Leads(g, disk, fat, d, path, to)
    ensures to in t.dirs
    decreases |path|
  {
    hide TreeOk, Finds, IsDirectory, ClusterOf, NotDots;
    DirIsChain(g, disk, fat, t, loose, d);
    if path != [] {
      var e :| NotDots(path[0]) && Finds(g, disk, fat, d, path[0], e) && IsDirectory(e) && Leads(g, disk, fat, ClusterOf(e), path[1..], to);
      FoundDirectory(g, disk, fat, t, loose, d, path[0], e);
      PathIsLive(g, disk, fat, t, loose, ClusterOf(e), path[1..], to);
    }
  }

  lemma FoundDirectory(g: Layout, disk: Disk, fat: Fat, t: Tree, loose: Option<nat>, d: nat, wanted: DirEntry -> bool, e: DirEntry)
    requires TreeOk(g, disk, fat, t, loose) && d in t.dirs && NotDots(wanted) && Finds(g, disk, fat, d, wanted, e) && IsDirectory(e)
    ensures ClusterOf(e) in t.dirs
  {
    hide FatOk, Forest, EndsOnce, Finds, Holds, ClusterOf, IsDirectory;
    var p := FoundHolds(g, disk, fat, t, loose, d, wanted, e);
  }

  /** Part `i` of the path does not lead on from directory `d`: there is no such directory in it, or `d`
      itself is malformed. */
  ghost predicate StopsAtPart(g: Layout, disk: Disk, fat: Fat, path: seq<DirEntry -> bool>, i: nat, d: nat, err: Error)
    requires |disk| == g.blocks
  {
    && i < |path| && Leads(g, disk, fat, g.root, path[..i], d)
    && if err == BadFs then forall any :: !IsChain(fat, d, any)
       else Absent(g, disk, fat, d, path[i]) || exists e :: Finds(g, disk, fat, d, path[i], e) && !IsDirectory(e)
  }

  /** The walk of `resolve_parent` over the parts of a path. */
  method ResolveParent(fs: FatInfo, path: seq<DirEntry -> bool>) returns (err: Error, parent: nat)
    requires fs.Clean() && forall i :: 0 <= i < |path| ==> NotDots(path[i])
    modifies fs`buffer, fs`bufferSector, fs`lost, fs.dev`script, fs.dev`tally
    ensures !fs.lost ==> fs.Clean()
    ensures Blamed(old(fs.dev.tally), fs.dev.tally, fs.lost, err)
    ensures err == NoError ==> !fs.lost && Leads(fs.g, fs.dev.sectors, fs.Links(), fs.g.root, path, parent)
    ensures err in {NoError, NotFound, BadFs, Io}
    ensures err in {NotFound, BadFs} ==> exists i: nat :: StopsAtPart(fs.g, fs.dev.sectors, fs.Links(), path, i, parent, err)
  {
    hide Represents, Finds, NotDots, FatOf, IsDirectory, ClusterOf, EntryAt, Absent, IsChain;
    parent := fs.g.root;
    ghost var fat := fs.Links();
    var i := 0;
    LeadsHere(fs.g, fs.dev.sectors, fat, fs.g.root);
    while i < |path|
      invariant i <= |path| && fs.Clean() && fs.dev.tally == old(fs.dev.tally)
      invariant Leads(fs.g, fs.dev.sectors, fat, fs.g.root, path[..i], parent)
    {
      var c, k, j, sector;
      err, c, k, j, sector := Locate(fs, parent, path[i]);
      if err != NoError {
        assert err in {NotFound, BadFs} ==> StopsAtPart(fs.g, fs.dev.sectors, fs.Links(), path, i, parent, err);
        return;
      }
      var e := EntryAt(sector, j);
      assert Finds(fs.g, fs.dev.sectors, fat, parent, path[i], e) by { FoundAt(fs.g, fs.dev.sectors, fat, parent, path[i], c, k, j); }
      if !IsDirectory(e) {
        assert StopsAtPart(fs.g, fs.dev.sectors, fs.Links(), path, i, parent, NotFound);
        return NotFound, parent;
      }
      LeadsFurther(fs.g, fs.dev.sectors, fat, fs.g.root, path[..i], parent, path[i], e);
      assert path[..i + 1] == path[..i] + [path[i]];
      parent := ClusterOf(e);
      i := i + 1;
    }
    assert path[..i] == path;
    return NoError, parent;
  }

  lemma FoundAt(g: Layout, disk: Disk, fat: Fat, d: nat, wanted: DirEntry -> bool, c: nat, k: nat, j: nat)
    requires |disk| == g.blocks && ClusterIn(g, c) && k < g.sectorsPerCluster && j < 16 && FirstMatch(g, disk, fat, d, wanted, c, k, j)
    ensures Finds(g, disk, fat, d, wanted, EntryAt(disk[DataLba(g, c, k)], j))
  {
    hide FirstMatch, EntryAt;
  }

  lemma LeadsHere(g: Layout, disk: Disk, fat: Fat, d: nat)
    requires |disk| == g.blocks
    ensures Leads(g, disk, fat, d, [], d)
  {
  }

  lemma {:induction false} LeadsFurther(g: Layout, disk: Disk, fat: Fat, d: nat, path: seq<DirEntry -> bool>, mid: nat, wanted: DirEntry -> bool, e: DirEntry)
    requires |disk| == g.blocks && Leads(g, disk, fat, d, path, mid) && NotDots(wanted) && Finds(g, disk, fat, mid, wanted, e) && IsDirectory(e)
    ensures Leads(g, disk, fat, d, path + [wanted], ClusterOf(e))
    decreases |path|
  {
    hide Finds, IsDirectory, ClusterOf, NotDots;
    var all := path + [wanted];
    if path == [] {
      assert all[0] == wanted && all[1..] == [];
      LeadsHere(g, disk, fat, ClusterOf(e));
    } else {
      var x :| NotDots(path[0]) && Finds(g, disk, fat, d, path[0], x) && IsDirectory(x) && Leads(g, disk, fat, ClusterOf(x), path[1..], mid);
      LeadsFurther(g, disk, fat, ClusterOf(x), path[1..], mid, wanted, e);
      assert all[0] == path[0] && all[1..] == path[1..] + [wanted];
    }
  }

  // ---- Runs ----

  /** Disk and FAT of a volume. */
  datatype State = State(disk: Disk, raw: seq<nat>)

  /** An operation on the directory `parent` that its path led to, or one that failed, published nothing
      and cleaned up. */
  datatype Step =
    | Mkdir(parent: nat, name: seq<Byte>, own: nat)
    | Create(parent: nat, name: seq<Byte>)
    | Unlink(parent: nat, wanted: DirEntry -> bool, e: DirEntry)
    | Rmdir(parent: nat, wanted: DirEntry -> bool, e: DirEntry, chain: seq<nat>)
    | Write(parent: nat, wanted: DirEntry -> bool, e: DirEntry, clusters: nat)
    | Failed

  /** What the contract of the operation states about the volume before and after it. */
  ghost predicate Does(g: Layout, s: State, step: Step, s': State) {
    && |s.disk| == g.blocks && |s.raw| == g.fatSectors * 128 == |s'.raw| && (step.Failed? || step.parent < U32)
    && match step
       case Mkdir(parent, name, own) => NameOk(name) && DirectoryMade(g, s.disk, s'.disk, s.raw, s'.raw, parent, name, own)
       case Create(parent, name) => NameOk(name) && EntryAdded(g, s.disk, s'.disk, s.raw, s'.raw, parent, MakeEntry(name, ATTR_ARCHIVE, 0))
       case Unlink(parent, wanted, e) =>
         && NotDots(wanted) && Finds(g, s.disk, FatOf(g, s.raw), parent, wanted, e) && !IsDirectory(e)
         && RemoveEffect(g, s.raw, s'.raw, ClusterOf(e)) && EntryRemoved(g, s.disk, s'.disk, FatOf(g, s'.raw), parent, wanted)
       case Rmdir(parent, wanted, e, chain) =>
         && NotDots(wanted) && Finds(g, s.disk, FatOf(g, s.raw), parent, wanted, e) && IsDirectory(e)
         && IsChain(FatOf(g, s.raw), ClusterOf(e), chain) && ChainEmpty(g, s.disk, chain) && FreedUpTo(s.raw, s'.raw, chain, |chain|)
         && EntryRemoved(g, s.disk, s'.disk, FatOf(g, s'.raw), parent, wanted)
       case Write(parent, wanted, e, clusters) =>
         && NotDots(wanted) && Finds(g, s.disk, FatOf(g, s.raw), parent, wanted, e) && !IsDirectory(e) && s'.raw == s.raw && |s'.disk| == g.blocks
         && (ClusterOf(e) == 0 ==> s'.disk == s.disk) && FatFile.OnlyChain(g, s.disk, s'.disk, FatOf(g, s.raw), ClusterOf(e), clusters)
       case Failed => s'.raw == s.raw && SameFreeData(g, FatOf(g, s.raw), s.disk, s'.disk)
  }

  /** The path of the operation leads to its directory. */
  ghost predicate Reached(g: Layout, s: State, step: Step, path: seq<DirEntry -> bool>)
    requires |s.disk| == g.blocks && |s.raw| == g.fatSectors * 128
  {
    step.Failed? || Leads(g, s.disk, FatOf(g, s.raw), g.root, path, step.parent)
  }

  ghost predicate Sound(g: Layout, s: State, t: Tree) {
    |s.raw| == g.fatSectors * 128 && TreeOk(g, s.disk, FatOf(g, s.raw), t, None)
  }

  /** An operation in a directory that a path leads to keeps the tree; its parent need not be known to be live. */
  lemma StepKeepsTree(g: Layout, s: State, step: Step, s': State, t: Tree, path: seq<DirEntry -> bool>) returns (t': Tree)
    requires Sound(g, s, t) && Does(g, s, step, s') && Reached(g, s, step, path)
    ensures Sound(g, s', t') && (step.Failed? || step.parent in t.dirs)
    ensures SameStray(FatOf(g, s.raw), t.chains, FatOf(g, s'.raw), t'.chains)
  {
    hide TreeOk, Stray, SameFreeData, FatOf, DirectoryMade, EntryAdded, RemoveEffect, EntryRemoved, Finds, IsChain, ChainEmpty, FreedUpTo, IsDirectory,
      ClusterOf, NameOk, NotDots;
    RootIsDir(g, s.disk, FatOf(g, s.raw), t);
    if !step.Failed? {
      PathIsLive(g, s.disk, FatOf(g, s.raw), t, None, g.root, path, step.parent);
    }
    match step {
      case Mkdir(parent, name, own) => t' := MkdirKeeps(g, s.disk, s'.disk, s.raw, s'.raw, t, parent, name, own);
      case Create(parent, name) => t' := CreateKeeps(g, s.disk, s'.disk, s.raw, s'.raw, t, parent, name);
      case Unlink(parent, wanted, e) => t' := UnlinkKeeps(g, s.disk, s'.disk, s.raw, s'.raw, t, parent, wanted, e);
      case Rmdir(parent, wanted, e, chain) => t' := RmdirKeeps(g, s.disk, s'.disk, s.raw, s'.raw, t, parent, wanted, e, chain);
      case Write(parent, wanted, e, clusters) =>
        WriteKeeps(g, s.disk, s'.disk, FatOf(g, s.raw), t, parent, wanted, e, clusters);
        t' := t;
      case Failed =>
        FailKeeps(g, s.disk, s'.disk, FatOf(g, s.raw), t);
        t' := t;
    }
  }

  lemma RootIsDir(g: Layout, disk: Disk, fat: Fat, t: Tree)
    requires TreeOk(g, disk, fat, t, None)
    ensures g.root in t.dirs && |disk| == g.blocks
  {
  }

  /** Every step is an operation in a directory that some path leads to. */
  ghost predicate IsRun(g: Layout, states: seq<State>, steps: seq<Step>, paths: seq<seq<DirEntry -> bool>>) {
    && |states| == |steps| + 1 && |paths| == |steps|
    && forall i :: 0 <= i < |steps| ==>
         Does(g, states[i], steps[i], states[i + 1]) && Reached(g, states[i], steps[i], paths[i])
  }

  /** In every state of every run the entries name the live chains, each once, these are well formed and disjoint,
      and the clusters in use on no chain are those of the first state. */
  lemma {:induction false} EveryRun(g: Layout, states: seq<State>, steps: seq<Step>, paths: seq<seq<DirEntry -> bool>>, t: Tree, i: nat) returns (t': Tree)
    requires IsRun(g, states, steps, paths) && Sound(g, states[0], t) && i < |states|
    ensures Sound(g, states[i], t') && Forest(FatOf(g, states[i].raw), t'.chains)
    ensures forall h :: h in t'.chains ==> NoRepeat(t'.chains[h])
    ensures SameStray(FatOf(g, states[0].raw), t.chains, FatOf(g, states[i].raw), t'.chains)
    decreases i
  {
    hide Does, FatOf, NamedOnce, EndsOnce, Forest, FatOk, Reached, Stray;
    if i == 0 {
      t' := t;
    } else {
      var before := EveryRun(g, states, steps, paths, t, i - 1);
      t' := StepKeepsTree(g, states[i - 1], steps[i - 1], states[i], before, paths[i - 1]);
    }
    forall h | h in t'.chains
      ensures NoRepeat(t'.chains[h])
    {
      ChainOf(FatOf(g, states[i].raw), t'.chains, h);
      ChainDistinct(FatOf(g, states[i].raw), h, t'.chains[h]);
    }
  }
}
