/** The FAT32 driver's core: entry cache, cluster allocation and chain release, over a
    block device any of whose operations may fail. */
module FatVolume {
  import opened Errors
  import opened Bytes
  import opened FatChain
  import opened FatGeometry
  import opened FatImage

  /** What the device does to one operation. */
  datatype Fault = Fine | Fails(junk: nat -> Sector)

  /** Sector `k` of a run of bytes. */
  function SectorOf(data: seq<Byte>, k: nat): Sector
    requires 512 * k + 512 <= |data|
  {
    data[512 * k..512 * k + 512]
  }

  /** A run of bytes cut into sectors. */
  function Chopped(data: seq<Byte>, count: nat): (r: seq<Sector>)
    requires |data| == 512 * count
    ensures |r| == count
    ensures forall x :: 0 <= x < |data| ==> r[x / 512][x % 512] == data[x]
  {
    if count == 0 then []
    else
      var r := Chopped(data[..512 * (count - 1)], count - 1) + [SectorOf(data, count - 1)];
      assert forall x :: 0 <= x < |data| ==> x / 512 < count - 1 || (x / 512 == count - 1 && x % 512 == x - 512 * (count - 1));
      r
  }

  /** The disk with `patch` in place of the sectors from `lba` on. */
  function Patched(disk: Disk, lba: nat, patch: seq<Sector>): (d: Disk)
    requires lba + |patch| <= |disk|
    ensures |d| == |disk|
    ensures forall k :: 0 <= k < |disk| ==> d[k] == if lba <= k < lba + |patch| then patch[k - lba] else disk[k]
  {
    disk[..lba] + patch + disk[lba + |patch|..]
  }

  /** How many transfers have failed, and how many of these were reads of the FAT. */
  datatype Tally = Tally(failed: nat, missed: nat)

  function Counted(t: Tally, fails: bool, ofFat: bool): Tally {
    if fails then Tally(t.failed + 1, t.missed + if ofFat then 1 else 0) else t
  }

  /** The two counts only grow, and each read that is missed is a failure. */
  ghost predicate Since(before: Tally, now: Tally) {
    before.missed <= now.missed && now.missed - before.missed <= now.failed - before.failed
  }

  /** The transfers that failed in between. */
  ghost function Failures(before: Tally, now: Tally): int {
    now.failed - before.failed
  }

  /** An operation reports an I/O error exactly when a transfer of its own failed, and the volume is given
      up exactly when that was a read of the FAT. */
  ghost predicate Blamed(before: Tally, now: Tally, lost: bool, err: Error) {
    && Since(before, now)
    && (err == Io <==> before.failed < now.failed)
    && (lost <==> before.missed < now.missed)
  }

  /** As `Blamed` for an operation that cleans up when it fails: it gives the volume up also when the
      clean-up fails, which is a failure besides the one that it cleans up after. */
  ghost predicate BlamedTwice(before: Tally, now: Tally, lost: bool, err: Error) {
    && Since(before, now)
    && (err == Io ==> before.failed < now.failed)
    && (before.failed < now.failed ==> err == Io || lost)
    && (before.missed < now.missed ==> lost)
    && (lost ==> before.missed < now.missed || before.failed + (if err == Io then 2 else 1) <= now.failed)
  }

  /** What holds without a clean-up, and that an operation that did not fail had no failures. */
  lemma BlamedAnyway(before: Tally, now: Tally, lost: bool, err: Error)
    requires Blamed(before, now, lost, err)
    ensures BlamedTwice(before, now, lost, err)
    ensures err != Io ==> now == before && !lost
    ensures lost ==> before.missed < now.missed
  {
  }

  /** The sectors of the FAT copies. */
  ghost function FatArea(g: Layout): iset<nat> {
    iset lba: nat | IsFatLba(g, lba)
  }

  /** A block device as an array of sectors.  A failed write leaves the addressed sectors
      in any state; a failed read leaves the destination in any state. */
  class BlockDevice {
    var sectors: Disk
    var script: seq<Fault>
    ghost const fat: iset<nat>       // the sectors of the FAT copies
    ghost var tally: Tally

    constructor (sectors: Disk, script: seq<Fault>, ghost fat: iset<nat>)
      ensures this.sectors == sectors && this.script == script && this.fat == fat
    {
      this.sectors, this.script, this.fat, tally := sectors, script, fat, Tally(0, 0);
    }

    /** What happens to the next transfer; `ofFat` tells whether it is a read of the FAT. */
    method NextFault(ghost ofFat: bool) returns (f: Fault)
      modifies this`script, this`tally
      ensures tally == Counted(old(tally), f.Fails?, ofFat)
      ensures tally.failed == old(tally.failed) + (if f.Fails? then 1 else 0)
      ensures if old(script) == [] then f == Fine && script == [] else [f] + script == old(script)
    {
      if script == [] {
        f := Fine;
      } else {
        f := script[0];
        script := script[1..];
      }
      if f.Fails? {
        tally := Counted(tally, true, ofFat);
      }
    }

    method Read(lba: nat) returns (err: Error, data: Sector)
      requires lba < |sectors|
      modifies this`script, this`tally
      ensures err == NoError || err == Io
      ensures tally == Counted(old(tally), err == Io, lba in fat)
      ensures err == NoError ==> data == sectors[lba]
    {
      var fault := NextFault(lba in fat);
      if fault.Fails? {
        return Io, fault.junk(lba);
      }
      return NoError, sectors[lba];
    }

    method Write(lba: nat, data: Sector) returns (err: Error)
      requires lba < |sectors|
      modifies this`script, this`sectors, this`tally
      ensures err == NoError || err == Io
      ensures tally == Counted(old(tally), err == Io, false) && |sectors| == |old(sectors)|
      ensures forall k :: 0 <= k < |sectors| && k != lba ==> sectors[k] == old(sectors)[k]
      ensures err == NoError ==> sectors[lba] == data
    {
      var fault := NextFault(false);
      if fault.Fails? {
        sectors := sectors[lba := fault.junk(lba)];
        return Io;
      }
      sectors := sectors[lba := data];
      return NoError;
    }

    /** Read `count` sectors as one run of bytes. */
    method ReadRun(lba: nat, count: nat) returns (err: Error, data: seq<Byte>)
      requires lba + count <= |sectors|
      modifies this`script, this`tally
      ensures err == NoError || err == Io
      ensures |data| == 512 * count
      ensures tally == Counted(old(tally), err == Io, lba in fat)
      ensures err == NoError ==> forall x :: 0 <= x < |data| ==> data[x] == sectors[lba + x / 512][x % 512]
    {
      var fault := NextFault(lba in fat);
      var disk := sectors;
      if fault.Fails? {
        return Io, seq(512 * count, x requires 0 <= x < 512 * count => fault.junk(lba + x / 512)[x % 512]);
      }
      return NoError, seq(512 * count, x requires 0 <= x < 512 * count => disk[lba + x / 512][x % 512]);
    }

    /** Write one run of bytes to `count` sectors. */
    method WriteRun(lba: nat, data: seq<Byte>, count: nat) returns (err: Error)
      requires lba + count <= |sectors| && |data| == 512 * count
      modifies this`script, this`sectors, this`tally
      ensures err == NoError || err == Io
      ensures tally == Counted(old(tally), err == Io, false) && |sectors| == |old(sectors)|
      ensures forall k :: 0 <= k < |sectors| && !(lba <= k < lba + count) ==> sectors[k] == old(sectors)[k]
      ensures err == NoError ==> forall x :: 0 <= x < |data| ==> sectors[lba + x / 512][x % 512] == data[x]
    {
      var fault := NextFault(false);
      if fault.Fails? {
        sectors := Patched(sectors, lba, seq(count, k requires 0 <= k => fault.junk(lba + k)));
        return Io;
      }
      sectors := Patched(sectors, lba, Chopped(data, count));
      return NoError;
    }
  }

  /** Nothing outside the FAT copies differs. */
  ghost predicate SameData(g: Layout, before: Disk, after: Disk) {
    && |after| == |before|
    && forall lba :: 0 <= lba < |before| && !IsFatLba(g, lba) ==> after[lba] == before[lba]
  }

  /** Nothing but cluster `c` differs among the sectors outside the FAT copies. */
  ghost predicate SameDataBut(g: Layout, before: Disk, after: Disk, c: nat)
    requires ClusterIn(g, c) && |before| == g.blocks
  {
    && |after| == |before|
    && forall lba :: 0 <= lba < |before| && !IsFatLba(g, lba) && !IsClusterLba(g, c, lba) ==> after[lba] == before[lba]
  }

  /** Every sector of cluster `c` is zero. */
  ghost predicate Zeroed(g: Layout, disk: Disk, c: nat)
    requires ClusterIn(g, c) && |disk| == g.blocks
  {
    forall k :: 0 <= k < g.sectorsPerCluster ==> disk[DataLba(g, c, k)] == seq(512, _ => 0)
  }

  /** The FAT with every cluster of `chain` free. */
  function Freed(raw: seq<nat>, chain: seq<nat>): (r: seq<nat>)
    requires forall i :: 0 <= i < |chain| ==> chain[i] < |raw|
    ensures |r| == |raw|
  {
    if chain == [] then raw else Stored(Freed(raw, chain[..|chain| - 1]), chain[|chain| - 1], FREE)
  }

  /** `Freed` zeroes the links of exactly the clusters of the chain. */
  lemma {:induction false} FreedEntries(raw: seq<nat>, chain: seq<nat>, c: nat)
    requires forall i :: 0 <= i < |chain| ==> chain[i] < |raw|
    requires c < |raw|
    ensures Freed(raw, chain)[c] % 0x1000_0000 == if c in chain then FREE else raw[c] % 0x1000_0000
    ensures Freed(raw, chain)[c] / 0x1000_0000 == raw[c] / 0x1000_0000
    ensures c !in chain ==> Freed(raw, chain)[c] == raw[c]
  {
    if chain != [] {
      var init := chain[..|chain| - 1];
      FreedEntries(raw, init, c);
      assert chain == init + [chain[|chain| - 1]];
    }
  }

  /** The first `k` clusters of `chain` are free and nothing else changed. */
  ghost predicate FreedUpTo(before: seq<nat>, after: seq<nat>, chain: seq<nat>, k: nat) {
    && k <= |chain|
    && (forall i :: 0 <= i < k ==> chain[i] < |before|)
    && after == Freed(before, chain[..k])
  }

  /** What a result of `NextCluster` stands for. */
  ghost function Meaning(r: Result<nat>): Outcome {
    if r.Failure? then Bad else if r.value == 0 then End else Yield(r.value)
  }

  class FatInfo {
    const dev: BlockDevice
    const g: Layout
    var buffer: Sector
    var bufferSector: nat
    var bufferDirty: bool
    /** The words of the FAT: the abstract state this class implements. */
    ghost var entries: seq<nat>
    /** Set when a read into the cache fails, which leaves the cache in any state (`SpoiledSector`), or
        when the clean-up of a failed operation fails.  The model follows the driver up to that point. */
    var lost: bool

    /** The object right after `mount`, on a disk whose FAT copies agree. */
    constructor (dev: BlockDevice, g: Layout)
      requires |dev.sectors| == g.blocks && dev.fat == FatArea(g)
      requires forall i, j {:trigger FatLba(g, i, j)} :: 0 <= i < g.fatCount && 0 <= j < g.fatSectors ==>
        dev.sectors[FatLba(g, i, j)] == dev.sectors[FatLba(g, 0, j)]
      ensures this.dev == dev && this.g == g
      ensures Clean()
      ensures entries == OnDisk(g, dev.sectors, 0)
    {
      this.dev, this.g := dev, g;
      buffer := seq(512, _ => 0);
      bufferSector, bufferDirty, lost := INVALID_SECTOR, false, false;
      entries := Raw(g, dev.sectors, seq(512, _ => 0), INVALID_SECTOR);
      new;
      forall i, j {:trigger FatLba(g, i, j)} | 0 <= i < g.fatCount && 0 <= j < g.fatSectors
        ensures dev.sectors[FatLba(g, i, j)] == Logical(g, dev.sectors, buffer, bufferSector, j)
      {
      }
      CleanCopies(g, dev.sectors, buffer, bufferSector, 0);
    }

    ghost predicate Valid()
      reads this, dev
    {
      && |dev.sectors| == g.blocks && dev.fat == FatArea(g)
      && |entries| == g.fatSectors * 128
      && (bufferSector == INVALID_SECTOR || g.reserved <= bufferSector < g.reserved + g.fatSectors)
      && (bufferDirty ==> bufferSector != INVALID_SECTOR)
    }

    /** Cache and disk together hold `entries`. */
    ghost predicate Kept()
      reads this, dev
    {
      Valid() && Represents(g, dev.sectors, buffer, bufferSector, bufferDirty, entries)
    }

    ghost predicate Sound()
      reads this, dev
    {
      Kept() && !lost
    }

    ghost predicate Clean()
      reads this, dev
    {
      Sound() && !bufferDirty
    }

    /** The link graph. */
    ghost function Links(): (fat: Fat)
      reads this`entries
      requires |entries| == g.fatSectors * 128
      ensures FatOk(fat) && |fat| == g.clusterCount + 2
    {
      FatOfOk(g, entries);
      FatOf(g, entries)
    }

    /** Nothing unwritten is dropped if the entry of `c` is read next; `DroppedSector` says what is lost
        otherwise. */
    ghost predicate MayRead(c: nat)
      reads this
    {
      !bufferDirty || !ClusterIn(g, c) || bufferSector == EntrySector(g, c)
    }

    /** With a clean cache every FAT copy on disk is exactly `entries`. */
    lemma CopiesAgree(i: nat)
      requires Clean() && i < g.fatCount
      ensures OnDisk(g, dev.sectors, i) == entries
    {
      CleanCopies(g, dev.sectors, buffer, bufferSector, i);
    }

    // ---- Entries ----

    /** Read the sector of `c` into a buffer that holds nothing unwritten. */
    method Fetch(c: nat) returns (err: Error)
      requires Clean() && ClusterIn(g, c)
      modifies this`buffer, this`bufferSector, this`lost, dev`script, dev`tally
      ensures Blamed(old(dev.tally), dev.tally, lost, err)
      ensures err == (if lost then Io else NoError)
      ensures !lost ==> Clean() && bufferSector == EntrySector(g, c)
    {
      hide Represents;
      EntryAddress(g, c);
      FatAddress(g, 0, c / 128);
      LoadKeeps(g, dev.sectors, buffer, bufferSector, c / 128, entries);
      err, buffer := dev.Read(FatLba32(g, EntrySector32(g, c), 0));
      if err != NoError {
        lost := true;
        return err;
      }
      bufferSector := EntrySector32(g, c);
    }

    method ReadEntry(c: nat) returns (r: Result<nat>)
      requires Sound() && MayRead(c)
      modifies this`buffer, this`bufferSector, this`lost, dev`script, dev`tally
      ensures Blamed(old(dev.tally), dev.tally, lost, if r.Failure? then r.error else NoError)
      ensures !lost ==> Sound() && (bufferDirty ==> bufferSector == old(bufferSector))
      ensures !ClusterIn(g, c) ==> r == Failure(BadFs) && !lost
      ensures ClusterIn(g, c) ==> if lost then r == Failure(Io) else r == Success(Links()[c])
    {
      hide Represents;
      if !ClusterIn(g, c) {
        return Failure(BadFs);
      }
      EntryAddress(g, c);
      if EntrySector32(g, c) != bufferSector {
        var err := Fetch(c);
        if err != NoError {
          return Failure(err);
        }
      }
      BufferedEntry(g, dev.sectors, buffer, bufferDirty, entries, c);
      return Success(Word(buffer, EntryWord32(c)) % 0x1000_0000);
    }

    /** Write the buffer over its sector in every FAT copy. */
    method WriteCopies() returns (err: Error)
      requires Sound() && bufferDirty
      modifies dev`sectors, dev`script, dev`tally
      ensures Blamed(old(dev.tally), dev.tally, lost, err)
      ensures Valid() && SameData(g, old(dev.sectors), dev.sectors)
      ensures Represents(g, dev.sectors, buffer, bufferSector, err != NoError, entries)
      ensures err == NoError || err == Io
    {
      hide Represents;
      ghost var before := dev.sectors;
      ghost var j := bufferSector - g.reserved;
      err := NoError;
      for i := 0 to g.fatCount
        invariant err == NoError && dev.tally == old(dev.tally)
        invariant Valid() && SameData(g, before, dev.sectors)
        invariant SameOtherFatSectors(g, before, dev.sectors, bufferSector)
        invariant forall k {:trigger FatLba(g, k, j)} :: 0 <= k < i ==> dev.sectors[FatLba(g, k, j)] == buffer
      {
        FatAddress(g, i, j);
        err := dev.Write(FatLba32(g, bufferSector, i), buffer);
        if err != NoError {
          break;
        }
      }
      WriteBack(g, before, dev.sectors, buffer, bufferSector, entries);
    }

    /** Write a modified buffer back, if there is one. */
    method Flush() returns (err: Error)
      requires Sound()
      modifies this`bufferDirty, dev
      ensures Blamed(old(dev.tally), dev.tally, lost, err)
      ensures Sound() && SameData(g, old(dev.sectors), dev.sectors)
      ensures err == (if bufferDirty then Io else NoError)
      ensures err != NoError ==> old(bufferDirty)
    {
      hide Represents;
      if bufferDirty && bufferSector != INVALID_SECTOR {
        err := WriteCopies();
        if err != NoError {
          return err;
        }
        bufferDirty := false;
      }
      return NoError;
    }

    /** On success the entry of `c` holds `value`, in every copy, and keeps its top four bits.
        A failed write leaves the new value in a dirty buffer, or an older dirty buffer in place. */
    method WriteEntry(c: nat, value: nat) returns (err: Error)
      requires Sound()
      modifies this, dev
      ensures Blamed(old(dev.tally), dev.tally, lost, err)
      ensures SameData(g, old(dev.sectors), dev.sectors) && (!lost ==> Sound())
      ensures !ClusterIn(g, c) ==> err == Invalid && unchanged(this) && unchanged(dev)
      ensures err == NoError ==> ClusterIn(g, c) && Clean() && entries == Stored(old(entries), c, value)
      ensures err in {NoError, Io, Invalid} && (lost ==> err == Io) && (err == Invalid ==> !ClusterIn(g, c))
      ensures !lost && err != NoError && ClusterIn(g, c) ==>
                || (bufferDirty && bufferSector == EntrySector(g, c) && entries == Stored(old(entries), c, value))
                || (old(bufferDirty) && bufferDirty && entries == old(entries)
                    && bufferSector == old(bufferSector) != EntrySector(g, c))
    {
      hide Represents, PutEntry;
      if !ClusterIn(g, c) {
        return Invalid;
      }
      EntryAddress(g, c);
      if EntrySector32(g, c) != bufferSector {
        err := Flush();
        if err != NoError {
          return err;
        }
        err := Fetch(c);
        if err != NoError {
          return err;
        }
      }
      StoreStep(g, dev.sectors, buffer, c, value, bufferDirty, entries);
      buffer := PutEntry(buffer, c, value);
      bufferDirty := true;
      entries := Stored(entries, c, value);
      err := Flush();
    }

    // ---- Chains ----

    /** One call of the chain walker, `ClusterChain::next`; zero marks the end of the chain. */
    method NextCluster(w: Walker) returns (r: Result<nat>, w': Walker)
      requires Sound() && (w.started && !w.finished ==> MayRead(w.current))
      modifies this`buffer, this`bufferSector, this`lost, dev`script, dev`tally
      ensures Blamed(old(dev.tally), dev.tally, lost, if r.Failure? then r.error else NoError)
      ensures !lost ==> Sound() && (bufferDirty ==> bufferSector == old(bufferSector))
      ensures !lost ==> Next(Links(), w) == (w', Meaning(r)) && (r.Failure? ==> r.error == BadFs)
      ensures lost ==> r == Failure(Io)
    {
      hide Represents;
      w' := w;
      if w.finished {
        return Success(0), w';
      }
      if w.started {
        var next := ReadEntry(w.current);
        if next.Failure? {
          return next, w';
        }
        if next.value >= EOC_MIN {
          w' := w.(finished := true);
          return Success(0), w';
        }
        if !ClusterIn(g, next.value) {
          return Failure(BadFs), w';
        }
        w' := w.(distance := (w.distance + 1) % 0x1_0000_0000);
        if next.value == w.checkpoint {
          return Failure(BadFs), w';
        }
        if w'.distance == w.power {
          w' := w'.(checkpoint := next.value, power := (w.power * 2) % 0x1_0000_0000, distance := 0);
        }
        w' := w'.(current := next.value);
      }
      if !ClusterIn(g, w'.current) || w'.visited >= g.clusterCount {
        return Failure(BadFs), w';
      }
      w' := w'.(visited := (w'.visited + 1) % 0x1_0000_0000, started := true);
      r := Success(w'.current);
    }

    /** A walk from `start` reads nothing but the buffered sector, or the buffer holds
        nothing unwritten. */
    ghost predicate MayWalk(start: nat)
      reads this, dev
      requires Valid()
    {
      !bufferDirty
      || (ClusterIn(g, start) && bufferSector == EntrySector(g, start) && Links()[start] >= EOC_MIN)
    }

    /** The first loop of `free_chain`: walk the whole chain before touching it. */
    method ValidateChain(start: nat) returns (err: Error, ghost chain: seq<nat>)
      requires Sound() && MayWalk(start)
      modifies this`buffer, this`bufferSector, this`lost, dev`script, dev`tally
      ensures Blamed(old(dev.tally), dev.tally, lost, err)
      ensures !lost ==> Sound() && (bufferDirty ==> bufferSector == old(bufferSector))
      ensures err == NoError ==> !lost && IsChain(Links(), start, chain)
      ensures err in {NoError, BadFs, Io} && (lost ==> err == Io)
      ensures !lost && err != NoError ==> err == BadFs && forall any :: !IsChain(Links(), start, any)
    {
      hide Represents, Yields, After, Call, FatChain.Next, IsChain, FatOk, FatOf, Walk, GeometryOk;
      ghost var fat := Links();
      var w := Start(start);
      ghost var t := 0;
      Begin(fat, start);
      while true
        invariant Sound() && (bufferDirty ==> bufferSector == old(bufferSector) && t <= 1) && dev.tally == old(dev.tally)
        invariant Yields(fat, start, t) && w == After(fat, start, t)
        decreases g.clusterCount - t
      {
        Advance(fat, start, t);
        var r;
        r, w := NextCluster(w);
        if r.Failure? {
          chain := [];
          return r.error, chain;
        }
        if r.value == 0 {
          chain :| IsChain(fat, start, chain);
          return NoError, chain;
        }
        t := t + 1;
      }
    }

    /** The second loop of `free_chain`: clear the entries of a validated chain, in order. */
    method Unlink(start: nat, ghost chain: seq<nat>) returns (err: Error, ghost freed: nat)
      requires Sound() && MayWalk(start) && IsChain(Links(), start, chain)
      modifies this, dev
      ensures Blamed(old(dev.tally), dev.tally, lost, err)
      ensures SameData(g, old(dev.sectors), dev.sectors)
      ensures !lost ==> Sound() && FreedUpTo(old(entries), entries, chain, freed)
      ensures err == NoError ==> Clean() && freed == |chain|
      ensures err in {NoError, Io}
      ensures !lost && err != NoError ==> bufferDirty
    {
      hide Represents, FatOf, Freed;
      freed := 0;
      ghost var fat := Links();
      ghost var before := entries;
      ChainDistinct(fat, start, chain);
      FreedNone(entries, chain);
      var cluster := start;
      while cluster < EOC_MIN
        invariant Sound() && SameData(g, old(dev.sectors), dev.sectors) && dev.tally == old(dev.tally)
        invariant FreedUpTo(before, entries, chain, freed)
        invariant cluster == if freed < |chain| then chain[freed] else fat[chain[|chain| - 1]]
        invariant bufferDirty ==> freed == 0 && bufferSector == EntrySector(g, start)
        invariant freed == |chain| ==> !bufferDirty
        decreases |chain| - freed
      {
        LinkIntact(g, before, chain, freed);
        var next := ReadEntry(cluster);
        if next.Failure? {
          return next.error, freed;
        }
        FreedNext(before, chain, freed);
        err := WriteEntry(cluster, FREE);
        freed := freed + 1;
        if err != NoError {
          return err, freed;
        }
        cluster := next.value;
      }
      return NoError, freed;
    }

    /** A chain that is not well formed is left alone; otherwise its clusters are freed in
        order, all of them or up to and including one whose write failed. */
    method FreeChain(start: nat) returns (err: Error, ghost chain: seq<nat>, ghost freed: nat)
      requires Sound() && MayWalk(start)
      modifies this, dev
      ensures Blamed(old(dev.tally), dev.tally, lost, err)
      ensures SameData(g, old(dev.sectors), dev.sectors) && (!lost ==> Sound())
      ensures !lost && (forall any :: !IsChain(old(Links()), start, any)) ==>
                err == BadFs && entries == old(entries) && dev.sectors == old(dev.sectors) && bufferDirty == old(bufferDirty)
      ensures !lost && (exists any :: IsChain(old(Links()), start, any)) ==>
                && IsChain(old(Links()), start, chain)
                && FreedUpTo(old(entries), entries, chain, freed)
                && (if err == NoError then freed == |chain| && !bufferDirty else bufferDirty)
      ensures err == NoError ==> Clean() && IsChain(old(Links()), start, chain) && FreedUpTo(old(entries), entries, chain, |chain|)
      ensures err in {NoError, BadFs, Io} && (lost ==> err == Io) && (err == BadFs ==> forall any :: !IsChain(old(Links()), start, any))
    {
      hide Represents, IsChain, FatOf, Freed;
      freed := 0;
      err, chain := ValidateChain(start);
      if err == NoError {
        err, freed := Unlink(start, chain);
      }
    }

    /** Undo the allocation of `c`, a chain of one cluster.  A failure here is only reported;
        the model stops following the driver. */
    method Rollback(c: nat)
      requires Sound() && ClusterIn(g, c) && Links()[c] >= EOC_MIN && MayWalk(c)
      modifies this, dev
      ensures BlamedTwice(old(dev.tally), dev.tally, lost, NoError)
      ensures SameData(g, old(dev.sectors), dev.sectors)
      ensures !lost ==> Clean() && entries == Stored(old(entries), c, FREE)
      ensures dev.tally.missed == old(dev.tally).missed ==> Kept() && (entries == old(entries) || entries == Stored(old(entries), c, FREE))
    {
      hide Represents, FatOf, Stored;
      assert IsChain(Links(), c, [c]);
      ghost var fat, before := Links(), entries;
      var err;
      ghost var chain, freed;
      err, chain, freed := FreeChain(c);
      if !lost {
        ChainOfOne(fat, c, chain);
        FreedOne(before, c);
        assert chain[..freed] == if freed == 0 then [] else [c];
      }
      if err != NoError {
        lost := true;
      }
    }

    /** Write `data` to `count` sectors of cluster `c` from sector `from` on. */
    method WriteSectors(c: nat, data: Sector, from: nat, count: nat) returns (err: Error)
      requires Sound() && ClusterIn(g, c) && from + count <= g.sectorsPerCluster
      modifies dev
      ensures Blamed(old(dev.tally), dev.tally, false, err)
      ensures Sound() && SameDataBut(g, old(dev.sectors), dev.sectors, c)
      ensures forall k {:trigger DataLba(g, c, k)} :: 0 <= k < from || from + count <= k < g.sectorsPerCluster ==>
                dev.sectors[DataLba(g, c, k)] == old(dev.sectors)[DataLba(g, c, k)]
      ensures err == NoError ==> forall k {:trigger DataLba(g, c, k)} :: from <= k < from + count ==> dev.sectors[DataLba(g, c, k)] == data
      ensures err == NoError || err == Io
    {
      hide Represents;
      ghost var before := dev.sectors;
      err := NoError;
      for s := from to from + count
        invariant err == NoError && dev.tally == old(dev.tally)
        invariant |dev.sectors| == g.blocks && SameDataBut(g, before, dev.sectors, c)
        invariant forall lba :: 0 <= lba < |before| && IsFatLba(g, lba) ==> dev.sectors[lba] == before[lba]
        invariant forall k {:trigger DataLba(g, c, k)} :: 0 <= k < from || from + count <= k < g.sectorsPerCluster ==>
                    dev.sectors[DataLba(g, c, k)] == before[DataLba(g, c, k)]
        invariant forall k {:trigger DataLba(g, c, k)} :: from <= k < s ==> dev.sectors[DataLba(g, c, k)] == data
      {
        ClusterAddress(g, c, s);
        err := dev.Write(DataLba32(g, c, s), data);
        if err != NoError {
          break;
        }
      }
      DataChangeKeeps(g, before, dev.sectors, buffer, bufferSector, bufferDirty, entries);
    }

    /** The lowest free cluster, marked as a chain of its own and zeroed; `Full` exactly when
        there is none.  A failed allocation leaves the FAT as it was. */
    method AllocCluster() returns (r: Result<nat>)
      requires Clean()
      modifies this, dev
      ensures BlamedTwice(old(dev.tally), dev.tally, lost, if r.Failure? then r.error else NoError)
      ensures !lost ==> Clean()
      ensures r.Success? ==>
                && !lost && ClusterIn(g, r.value) && old(Links())[r.value] == FREE
                && (forall b :: 2 <= b < r.value ==> old(Links())[b] != FREE)
                && entries == Stored(old(entries), r.value, EOC_MAX)
                && Zeroed(g, dev.sectors, r.value)
                && SameDataBut(g, old(dev.sectors), dev.sectors, r.value)
      ensures !lost ==> (r == Failure(Full) <==> forall c: nat :: ClusterIn(g, c) ==> old(Links())[c] != FREE)
      ensures r == Failure(Full) ==> dev.sectors == old(dev.sectors)
      ensures r.Failure? ==> r.error in {Full, Io}
      ensures r == Failure(Full) ==> forall c: nat :: ClusterIn(g, c) ==> old(Links())[c] != FREE
      ensures r.Failure? ==> SameFreeData(g, old(Links()), old(dev.sectors), dev.sectors) && (!lost ==> entries == old(entries))
      ensures r.Failure? && dev.tally.missed == old(dev.tally).missed ==> Kept() && OnlyLeaks(g, old(entries), entries)
    {
      hide Represents, FatOf, Stored;
      ghost var fat := Links();
      for c := 2 to g.clusterCount + 2
        invariant Clean() && entries == old(entries) && dev.sectors == old(dev.sectors) && dev.tally == old(dev.tally)
        invariant forall b :: 2 <= b < c ==> fat[b] != FREE
      {
        r := ReadEntry(c);
        if r.Failure? {
          return;
        }
        if r.value == FREE {
          r := Claim(c);
          return;
        }
      }
      return Failure(Full);
    }

    /** The body of the allocation loop, for the free cluster it found. */
    method Claim(c: nat) returns (r: Result<nat>)
      requires Clean() && ClusterIn(g, c) && Links()[c] == FREE
      modifies this, dev
      ensures BlamedTwice(old(dev.tally), dev.tally, lost, if r.Failure? then r.error else NoError)
      ensures !lost ==> Clean()
      ensures SameDataBut(g, old(dev.sectors), dev.sectors, c)
      ensures r.Success? ==> !lost && r.value == c && entries == Stored(old(entries), c, EOC_MAX) && Zeroed(g, dev.sectors, c)
      ensures r.Failure? ==> r.error == Io
      ensures !lost && r.Failure? ==> entries == old(entries)
      ensures r.Failure? && dev.tally.missed == old(dev.tally).missed ==> Kept() && OnlyLeaks(g, old(entries), entries)
    {
      hide Represents;
      StoredFat(g, entries, c, EOC_MAX);
      StoredTwice(g, entries, c, EOC_MAX);
      OneLeak(g, entries, c);
      var err := WriteEntry(c, EOC_MAX);
      if err == NoError {
        err := WriteSectors(c, seq(512, _ => 0), 0, g.sectorsPerCluster);
      }
      if err != NoError {
        if !lost {
          Rollback(c);
        }
        return Failure(err);
      }
      return Success(c);
    }
  }

  /** The words of the FAT are as they were, but free clusters may be marked as chains of their own. */
  ghost predicate OnlyLeaks(g: Layout, raw: seq<nat>, raw': seq<nat>)
    requires |raw| == g.fatSectors * 128
  {
    && |raw'| == |raw|
    && forall c :: 0 <= c < |raw| && raw'[c] != raw[c] ==>
         ClusterIn(g, c) && FatOf(g, raw)[c] == FREE && raw'[c] == Merge(raw[c], EOC_MAX)
  }

  lemma OneLeak(g: Layout, raw: seq<nat>, c: nat)
    requires |raw| == g.fatSectors * 128 && ClusterIn(g, c) && FatOf(g, raw)[c] == FREE
    ensures OnlyLeaks(g, raw, raw) && OnlyLeaks(g, raw, Stored(raw, c, EOC_MAX))
  {
  }

  lemma NoLeak(g: Layout, raw: seq<nat>)
    requires |raw| == g.fatSectors * 128
    ensures OnlyLeaks(g, raw, raw)
  {
  }

  /** A leak besides one free cluster that was taken. */
  lemma MoreLeaks(g: Layout, raw: seq<nat>, c: nat, raw': seq<nat>)
    requires |raw| == g.fatSectors * 128 && ClusterIn(g, c) && FatOf(g, raw)[c] == FREE
    requires OnlyLeaks(g, Stored(raw, c, EOC_MAX), raw')
    ensures OnlyLeaks(g, raw, raw')
  {
    StoredFat(g, raw, c, EOC_MAX);
  }

  /** Outside the FAT copies, only sectors of clusters free in `fat` differ. */
  ghost predicate SameFreeData(g: Layout, fat: Fat, before: Disk, after: Disk)
    requires |before| == g.blocks && |fat| == g.clusterCount + 2
  {
    && |after| == |before|
    && forall lba :: 0 <= lba < |before| && !IsFatLba(g, lba) && after[lba] != before[lba] ==>
         exists c: nat :: ClusterIn(g, c) && fat[c] == FREE && IsClusterLba(g, c, lba)
  }

  lemma ChainOfOne(fat: Fat, c: nat, chain: seq<nat>)
    requires FatOk(fat) && IsChain(fat, c, chain) && ValidCluster(fat, c) && fat[c] >= EOC_MIN
    ensures chain == [c]
  {
    if |chain| > 1 {
      ChainIsWalk(fat, c, chain, 1);
      assert false;
    }
  }

  lemma FreedOne(raw: seq<nat>, c: nat)
    requires c < |raw|
    ensures Freed(raw, [c]) == Stored(raw, c, FREE)
  {
    assert [c][..0] == [];
  }

  /** Allocating a free cluster and freeing it again restores its word. */
  lemma StoredTwice(g: Layout, raw: seq<nat>, c: nat, value: nat)
    requires |raw| == g.fatSectors * 128 && ClusterIn(g, c) && FatOf(g, raw)[c] == FREE
    ensures Stored(Stored(raw, c, value), c, FREE) == raw
  {
    MergeParts(raw[c], value);
  }

  lemma FreedNone(raw: seq<nat>, chain: seq<nat>)
    ensures FreedUpTo(raw, raw, chain, 0)
  {
  }

  lemma FreedNext(raw: seq<nat>, chain: seq<nat>, k: nat)
    requires k < |chain| && forall i :: 0 <= i <= k ==> chain[i] < |raw|
    ensures FreedUpTo(raw, Stored(Freed(raw, chain[..k]), chain[k], FREE), chain, k + 1)
  {
    assert chain[..k + 1][..k] == chain[..k];
  }

  /** Freeing the first `k` clusters leaves the link of the next one as it was. */
  lemma LinkIntact(g: Layout, raw: seq<nat>, chain: seq<nat>, k: nat)
    requires |raw| == g.fatSectors * 128
    requires forall i :: 0 <= i < |chain| ==> ClusterIn(g, chain[i]) && chain[i] < |raw|
    requires forall i, j :: 0 <= i < j < |chain| ==> chain[i] != chain[j]
    requires k < |chain| && ClusterIn(g, chain[k])
    ensures FatOf(g, Freed(raw, chain[..k]))[chain[k]] == FatOf(g, raw)[chain[k]]
  {
    FreedEntries(raw, chain[..k], chain[k]);
  }
}
