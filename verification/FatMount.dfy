/** From a disk to a volume: the partition, the boot sector and the geometry, from their bytes. */
module FatMount {
  import opened Errors
  import opened Bytes
  import opened FatChain
  import opened FatGeometry
  import opened FatImage
  import opened FatVolume

  // ---- The boot sector ----

  /** The fields of the boot sector that `mount` uses. */
  function BootSectorOf(s: Sector): BootSector {
    BootSector(Le(s, 510, 2), Le(s, 66, 1), Le(s, 11, 2), Le(s, 13, 1), Le(s, 14, 2), Le(s, 16, 1), Le(s, 17, 2), Le(s, 22, 2), Le(s, 32, 4),
               Le(s, 36, 4), Le(s, 40, 2), Le(s, 42, 2), Le(s, 44, 4))
  }

  ghost predicate Writable(bs: BootSector) {
    && Encodable(bs) && bs.signature < 0x1_0000 && bs.bootSignature < 0x100 && bs.rootEntries < 0x1_0000 && bs.fatSize16 < 0x1_0000
    && bs.extFlags < 0x1_0000 && bs.fsVersion < 0x1_0000
  }

  /** A FAT32 boot sector, as the Microsoft FAT specification, version 1.03, lays it out; `x` are the runs of fields
      between those that `mount` uses. */
  ghost function BootFields(bs: BootSector, x: seq<nat>): seq<Field>
    requires |x| == 5
  {
    [Field(x[0], 11), Field(bs.bytesPerSector, 2), Field(bs.sectorsPerCluster, 1), Field(bs.reservedSectors, 2), Field(bs.numFats, 1),
     Field(bs.rootEntries, 2), Field(x[1], 3), Field(bs.fatSize16, 2), Field(x[2], 8), Field(bs.totalSectors32, 4), Field(bs.fatSize32, 4),
     Field(bs.extFlags, 2), Field(bs.fsVersion, 2), Field(bs.rootCluster, 4), Field(x[3], 18), Field(bs.bootSignature, 1), Field(x[4], 443),
     Field(bs.signature, 2)]
  }

  lemma BootStarts(bs: BootSector, x: seq<nat>)
    requires |x| == 5
    ensures var f := BootFields(bs, x);
      && FieldStart(f, 1) == 11 && FieldStart(f, 2) == 13 && FieldStart(f, 3) == 14 && FieldStart(f, 4) == 16 && FieldStart(f, 5) == 17
      && FieldStart(f, 7) == 22 && FieldStart(f, 9) == 32 && FieldStart(f, 10) == 36 && FieldStart(f, 11) == 40 && FieldStart(f, 12) == 42
      && FieldStart(f, 13) == 44 && FieldStart(f, 15) == 66 && FieldStart(f, 17) == 510 && FieldStart(f, 18) == 512
  {
    var f := BootFields(bs, x);
    assert FieldStart(f, 1) == 11 && FieldStart(f, 2) == 13 && FieldStart(f, 3) == 14 && FieldStart(f, 4) == 16 && FieldStart(f, 5) == 17;
    assert FieldStart(f, 6) == 19 && FieldStart(f, 7) == 22 && FieldStart(f, 8) == 24 && FieldStart(f, 9) == 32 && FieldStart(f, 10) == 36;
    assert FieldStart(f, 11) == 40 && FieldStart(f, 12) == 42 && FieldStart(f, 13) == 44 && FieldStart(f, 14) == 48 && FieldStart(f, 15) == 66;
    assert FieldStart(f, 16) == 67 && FieldStart(f, 17) == 510;
  }

  lemma BootField(s: Sector, bs: BootSector, x: seq<nat>, i: nat)
    requires Writable(bs) && |x| == 5 && s == Packed(BootFields(bs, x)) && i < 18
    requires BootFields(bs, x)[i].value < Limit(BootFields(bs, x)[i].width)
    ensures FieldStart(BootFields(bs, x), i) + BootFields(bs, x)[i].width <= 512
    ensures Le(s, FieldStart(BootFields(bs, x), i), BootFields(bs, x)[i].width) == BootFields(bs, x)[i].value
  {
    hide Packed, FieldStart, Le, Limit;
    assert s[0..0 + |s|] == s;
    FieldRead(s, 0, BootFields(bs, x), i);
  }

  /** A boot sector written as the specification says is read as it was. */
  lemma BootRead(s: Sector, bs: BootSector, x: seq<nat>)
    requires Writable(bs) && |x| == 5 && s == Packed(BootFields(bs, x))
    ensures BootSectorOf(s) == bs
  {
    hide Packed, FieldStart, Limit, Le;
    Limits();
    BootStarts(bs, x);
    BootField(s, bs, x, 1);
    BootField(s, bs, x, 2);
    BootField(s, bs, x, 3);
    BootField(s, bs, x, 4);
    BootField(s, bs, x, 5);
    BootField(s, bs, x, 7);
    BootField(s, bs, x, 9);
    BootField(s, bs, x, 10);
    BootField(s, bs, x, 11);
    BootField(s, bs, x, 12);
    BootField(s, bs, x, 13);
    BootField(s, bs, x, 15);
    BootField(s, bs, x, 17);
  }

  // ---- The partition ----

  /** The EFI system partition type, C12A7328-F81F-11D2-BA4B-00A0C93EC93B, in memory. */
  const ESP: seq<Byte> := [0x28, 0x73, 0x2A, 0xC1, 0x1F, 0xF8, 0xD2, 0x11, 0xBA, 0x4B, 0x00, 0xA0, 0xC9, 0x3E, 0xC9, 0x3B]

  /** Slot `i` of a sector of the partition table is an EFI system partition. */
  predicate IsEsp(s: Sector, i: nat)
    requires i < 4
  {
    s[128 * i..128 * i + 16] == ESP
  }

  /** The sector of entry `e`, in 32-bit arithmetic. */
  function EntryLba(first: nat, e: nat): nat {
    (first % 0x1_0000_0000 + e / 4) % 0x1_0000_0000
  }

  /** Entry `e` of the table is on the disk and an EFI system partition. */
  ghost predicate EspAt(disk: Disk, first: nat, e: nat) {
    EntryLba(first, e) < |disk| && IsEsp(disk[EntryLba(first, e)], e % 4)
  }

  /** The first `n` entries of the table are on the disk and none is an EFI system partition. */
  ghost predicate NoEsp(disk: Disk, first: nat, n: nat) {
    forall e: nat :: e < n ==> EntryLba(first, e) < |disk| && !IsEsp(disk[EntryLba(first, e)], e % 4)
  }

  /** The start of entry `e`. */
  ghost function StartOf(disk: Disk, first: nat, e: nat): nat
    requires EntryLba(first, e) < |disk|
  {
    Le(disk[EntryLba(first, e)], 128 * (e % 4) + 32, 8)
  }

  /** Entries are 128 bytes, one after the other from the first sector of the table on. */
  lemma EntryPlace(first: nat, e: nat)
    ensures first + e / 4 < 0x1_0000_0000 ==> 512 * EntryLba(first, e) + 128 * (e % 4) == 512 * first + 128 * e
  {
  }

  /** And sector numbers wrap around at 32 bits. */
  lemma EntryWraps(first: nat, e: nat)
    ensures EntryLba(first + 0x1_0000_0000, e) == EntryLba(first, e) && EntryLba(first, e + 0x4_0000_0000) == EntryLba(first, e)
  {
  }

  /** A partition entry of the UEFI specification: type and unique identifier, first and last block, attributes, name. */
  ghost function GptFields(a: nat, b: nat, c: nat, d: nat, start: nat, x: seq<nat>): seq<Field>
    requires |x| == 4
  {
    [Field(a, 4), Field(b, 2), Field(c, 2), Field(d, 8), Field(x[0], 16), Field(start, 8), Field(x[1], 8), Field(x[2], 8), Field(x[3], 72)]
  }

  /** An entry is an EFI system partition exactly if its type is C12A7328-F81F-11D2-BA4B-00A0C93EC93B, and its start is
      read where the specification puts it. */
  lemma EntryRead(s: Sector, i: nat, a: nat, b: nat, c: nat, d: nat, start: nat, x: seq<nat>)
    requires i < 4 && |x| == 4 && s[128 * i..128 * i + 128] == Packed(GptFields(a, b, c, d, start, x))
    requires a < Limit(4) && b < Limit(2) && c < Limit(2) && d < Limit(8) && start < Limit(8)
    ensures IsEsp(s, i) <==> a == 0xC12A7328 && b == 0xF81F && c == 0x11D2 && d == 0x3BC9_3EC9_A000_4BBA
    ensures Le(s, 128 * i + 32, 8) == start
  {
    hide Packed, Limit, Le;
    var f := GptFields(a, b, c, d, start, x);
    assert FieldStart(f, 1) == 4 && FieldStart(f, 2) == 6 && FieldStart(f, 3) == 8 && FieldStart(f, 4) == 16 && FieldStart(f, 5) == 32;
    assert FieldStart(f, 6) == 40 && FieldStart(f, 7) == 48 && FieldStart(f, 8) == 56 && FieldStart(f, 9) == 128;
    FieldRead(s, 128 * i, f, 0);
    FieldRead(s, 128 * i, f, 1);
    FieldRead(s, 128 * i, f, 2);
    FieldRead(s, 128 * i, f, 3);
    FieldRead(s, 128 * i, f, 5);
    EspBytes(s, 128 * i);
  }

  /** The bytes of the type are those of its four parts. */
  lemma EspBytes(s: Sector, o: nat)
    requires o + 16 <= 512
    ensures s[o..o + 16] == ESP <==>
            Le(s, o, 4) == 0xC12A7328 && Le(s, o + 4, 2) == 0xF81F && Le(s, o + 6, 2) == 0x11D2 && Le(s, o + 8, 8) == 0x3BC9_3EC9_A000_4BBA
  {
    hide Le;
    EspParts();
    LeTells(s, o, ESP, 0, 4);
    LeTells(s, o + 4, ESP, 4, 2);
    LeTells(s, o + 6, ESP, 6, 2);
    LeTells(s, o + 8, ESP, 8, 8);
    Quarters(s[o..o + 16], ESP);
    Slice(s, o, 16, 0, 4);
    Slice(s, o, 16, 4, 6);
    Slice(s, o, 16, 6, 8);
    Slice(s, o, 16, 8, 16);
  }

  lemma Slice(s: seq<Byte>, o: nat, n: nat, a: nat, b: nat)
    requires a <= b <= n && o + n <= |s|
    ensures s[o..o + n][a..b] == s[o + a..o + b]
  {
    var x, y := s[o..o + n][a..b], s[o + a..o + b];
    assert forall k :: 0 <= k < b - a ==> x[k] == y[k];
  }

  lemma EspParts()
    ensures Le(ESP, 0, 4) == 0xC12A7328 && Le(ESP, 4, 2) == 0xF81F && Le(ESP, 6, 2) == 0x11D2 && Le(ESP, 8, 8) == 0x3BC9_3EC9_A000_4BBA
  {
    hide Le;
    LeWritten(ESP, 0);
    LeWritten(ESP, 4);
    LeWritten(ESP, 6);
    LeWritten(ESP, 8);
    LeWritten(ESP, 12);
  }

  lemma Quarters(x: seq<Byte>, y: seq<Byte>)
    requires |x| == |y| == 16
    ensures x == y <==> x[0..4] == y[0..4] && x[4..6] == y[4..6] && x[6..8] == y[6..8] && x[8..16] == y[8..16]
  {
    assert x == x[0..4] + x[4..6] + x[6..8] + x[8..16];
    assert y == y[0..4] + y[4..6] + y[6..8] + y[8..16];
  }

  /** Looks through the `n` entries of the table at `first`, sector by sector.  None is for a start above 31 bits
      as well. */
  method FindEsp(dev: BlockDevice, first: nat, n: nat) returns (r: Option<nat>)
    modifies dev`script, dev`tally
    ensures r.Some? ==>
              exists e: nat :: e < n && NoEsp(dev.sectors, first, e) && EspAt(dev.sectors, first, e)
                               && r.value == StartOf(dev.sectors, first, e) % 0x1_0000_0000 < 0x8000_0000
    ensures r.Some? ==> dev.tally == old(dev.tally)
    ensures r.None? && dev.tally == old(dev.tally) ==>
              || NoEsp(dev.sectors, first, n)
              || exists e: nat :: e < n && NoEsp(dev.sectors, first, e)
                   && (EntryLba(first, e) >= |dev.sectors| || (EspAt(dev.sectors, first, e) && StartOf(dev.sectors, first, e) % 0x1_0000_0000 >= 0x8000_0000))
  {
    hide Le, IsEsp;
    var e := 0;
    while e < n
      invariant e <= n && NoEsp(dev.sectors, first, e) && dev.tally == old(dev.tally) && (e == n || e % 4 == 0)
    {
      var lba := EntryLba(first, e);
      if lba >= |dev.sectors| {
        return None;
      }
      var err, s := dev.Read(lba);
      if err != NoError {
        return None;
      }
      ghost var from := e;
      var i := 0;
      while i < 4 && e < n
        invariant i <= 4 && e <= n && e == from + i && NoEsp(dev.sectors, first, e)
      {
        assert EntryLba(first, e) == lba && e % 4 == i;
        if IsEsp(s, i) {
          assert EspAt(dev.sectors, first, e);
          var start := Le(s, 128 * i + 32, 8) % 0x1_0000_0000;
          return if start < 0x8000_0000 then Some(start) else None;
        }
        i := i + 1;
        e := e + 1;
      }
    }
    return None;
  }

  /** What the first sector says: no partition table that is known, a FAT32 partition, or a GUID partition table. */
  datatype Scheme = Unmarked | Whole | Mbr(start: nat) | Gpt

  function SchemeOf(s: Sector): Scheme {
    if Le(s, 510, 2) != 0xAA55 then Unmarked
    else if s[450] == 0xEE then Gpt
    else if s[450] == 0x0B || s[450] == 0x0C then Mbr(Le(s, 454, 4))
    else Whole
  }

  /** A boot record whose first partition has type `kind` and starts at `start`; `x` are the other fields. */
  ghost function MbrFields(kind: nat, start: nat, signature: nat, x: seq<nat>): seq<Field>
    requires |x| == 6
  {
    [Field(x[0], 446), Field(x[1], 1), Field(x[2], 3), Field(kind, 1), Field(x[3], 3), Field(start, 4), Field(x[4], 4), Field(x[5], 48),
     Field(signature, 2)]
  }

  /** Which scheme a boot record stands for. */
  lemma SchemeRead(s: Sector, kind: nat, start: nat, signature: nat, x: seq<nat>)
    requires |x| == 6 && kind < 0x100 && start < 0x1_0000_0000 && signature < 0x1_0000 && s == Packed(MbrFields(kind, start, signature, x))
    ensures SchemeOf(s) == if signature != 0xAA55 then Unmarked else if kind == 0xEE then Gpt else if kind in {0x0B, 0x0C} then Mbr(start) else Whole
  {
    hide Packed, Limit;
    Limits();
    var f := MbrFields(kind, start, signature, x);
    assert FieldStart(f, 1) == 446 && FieldStart(f, 2) == 447 && FieldStart(f, 3) == 450 && FieldStart(f, 4) == 451;
    assert FieldStart(f, 5) == 454 && FieldStart(f, 6) == 458 && FieldStart(f, 7) == 462 && FieldStart(f, 8) == 510;
    assert s[0..0 + |s|] == s;
    FieldRead(s, 0, f, 3);
    FieldRead(s, 0, f, 5);
    FieldRead(s, 0, f, 8);
    assert Le(s, 450, 1) == s[450];
  }

  /** "EFI PART" */
  const GPT_SIGNATURE: seq<Byte> := [0x45, 0x46, 0x49, 0x20, 0x50, 0x41, 0x52, 0x54]

  /** The header of a GUID partition table, up to the place and number of its entries. */
  ghost function GptHeader(signature: nat, entries: nat, n: nat, x: seq<nat>): seq<Field>
    requires |x| == 2
  {
    [Field(signature, 8), Field(x[0], 64), Field(entries, 8), Field(n, 4), Field(x[1], 428)]
  }

  lemma HeaderRead(s: Sector, signature: nat, entries: nat, n: nat, x: seq<nat>)
    requires |x| == 2 && signature < Limit(8) && entries < Limit(8) && n < Limit(4) && s == Packed(GptHeader(signature, entries, n, x))
    ensures s[..8] == GPT_SIGNATURE <==> signature == 0x5452_4150_2049_4645
    ensures Le(s, 72, 8) == entries && Le(s, 80, 4) == n
  {
    hide Packed, Limit, Le;
    var f := GptHeader(signature, entries, n, x);
    assert FieldStart(f, 1) == 8 && FieldStart(f, 2) == 72 && FieldStart(f, 3) == 80 && FieldStart(f, 4) == 84;
    assert s[0..0 + |s|] == s;
    FieldRead(s, 0, f, 0);
    FieldRead(s, 0, f, 2);
    FieldRead(s, 0, f, 3);
    GptSignature();
    LeTells(s, 0, GPT_SIGNATURE, 0, 8);
    assert s[0..8] == s[..8] && GPT_SIGNATURE[0..8] == GPT_SIGNATURE;
  }

  lemma GptSignature()
    ensures Le(GPT_SIGNATURE, 0, 8) == 0x5452_4150_2049_4645
  {
    hide Le;
    LeWritten(GPT_SIGNATURE, 0);
    LeWritten(GPT_SIGNATURE, 4);
  }

  /** The first EFI system partition of the table starts at `p`. */
  ghost predicate EspStarts(disk: Disk, p: nat) {
    && |disk| > 1 && disk[1][..8] == GPT_SIGNATURE
    && var first, n := Le(disk[1], 72, 8), Le(disk[1], 80, 4);
       exists e: nat :: e < n && NoEsp(disk, first, e) && EspAt(disk, first, e) && p == StartOf(disk, first, e) % 0x1_0000_0000 < 0x8000_0000
  }

  /** The volume starts at `p`: at the first FAT32 partition, at the first EFI system partition, or at the disk's start. */
  ghost predicate StartsAt(disk: Disk, p: nat)
    requires |disk| > 0
  {
    match SchemeOf(disk[0])
    case Unmarked => false
    case Whole => p == 0
    case Mbr(start) => p == start
    case Gpt => EspStarts(disk, p)
  }

  /** The case of a GUID partition table. */
  method FindGpt(dev: BlockDevice) returns (r: Result<nat>)
    modifies dev`script, dev`tally
    ensures r.Success? ==> EspStarts(dev.sectors, r.value) && dev.tally == old(dev.tally)
    ensures r.Failure? && dev.tally == old(dev.tally) ==>
              (r.error == BadFs <==> |dev.sectors| > 1 && dev.sectors[1][..8] != GPT_SIGNATURE) && forall p: nat :: !EspStarts(dev.sectors, p)
    ensures r.Failure? ==> r.error in {BadFs, NotFound, Io, Invalid}
  {
    hide Le, IsEsp;
    if |dev.sectors| < 2 {
      return Failure(Invalid);
    }
    var err, h := dev.Read(1);
    if err != NoError {
      return Failure(Io);
    }
    if h[..8] != GPT_SIGNATURE {
      return Failure(BadFs);
    }
    var esp := FindEsp(dev, Le(h, 72, 8), Le(h, 80, 4));
    if esp.None? {
      return Failure(NotFound);
    }
    return Success(esp.value);
  }

  method FindPartition(dev: BlockDevice) returns (r: Result<nat>)
    requires |dev.sectors| > 0
    modifies dev`script, dev`tally
    ensures r.Success? ==> StartsAt(dev.sectors, r.value) && dev.tally == old(dev.tally)
    ensures r.Failure? && dev.tally == old(dev.tally) ==>
              (r.error == BadFs <==>
                 || SchemeOf(dev.sectors[0]).Unmarked?
                 || (SchemeOf(dev.sectors[0]).Gpt? && |dev.sectors| > 1 && dev.sectors[1][..8] != GPT_SIGNATURE))
    ensures r.Failure? && dev.tally == old(dev.tally) ==> forall p: nat :: !StartsAt(dev.sectors, p)
    ensures r.Failure? ==> r.error in {BadFs, NotFound, Io, Invalid}
  {
    hide Le, EspStarts;
    var err, s := dev.Read(0);
    if err != NoError {
      return Failure(Io);
    }
    match SchemeOf(s) {
      case Unmarked => return Failure(BadFs);
      case Whole => return Success(0);
      case Mbr(start) => return Success(start);
      case Gpt => r := FindGpt(dev);
    }
  }

  /** Mounts the volume on a disk: the geometry is that of the boot sector where the volume starts. */
  method MountDevice(dev: BlockDevice) returns (r: Result<Geometry>)
    requires 0 < |dev.sectors| < U32
    modifies dev`script, dev`tally
    ensures r.Success? ==> GeometryOk(r.value) && r.value.blocks == |dev.sectors| && StartsAt(dev.sectors, r.value.partition)
    ensures r.Success? ==>
              r.value.partition < |dev.sectors| && Mount(BootSectorOf(dev.sectors[r.value.partition]), r.value.partition, |dev.sectors|) == r
    ensures r.Failure? && dev.tally == old(dev.tally) ==>
              forall p: nat :: StartsAt(dev.sectors, p) ==> p >= |dev.sectors| || !IsVolume(BootSectorOf(dev.sectors[p]), p, |dev.sectors|)
  {
    hide StartsAt, Mount, BootSectorOf, GeometryOk, IsVolume;
    var start := FindPartition(dev);
    if start.Failure? {
      return Failure(start.error);
    }
    var p := start.value;
    forall q: nat | StartsAt(dev.sectors, q)
      ensures q == p
    {
      OneStart(dev.sectors, p, q);
    }
    if p >= |dev.sectors| {
      return Failure(Invalid);
    }
    var err, s := dev.Read(p);
    if err != NoError {
      return Failure(Io);
    }
    BootFits(s);
    MountAccepts(BootSectorOf(s), p, |dev.sectors|);
    r := Mount(BootSectorOf(s), p, |dev.sectors|);
    if r.Success? {
      MountedAsGiven(BootSectorOf(s), p, |dev.sectors|);
      MountedIsSound(BootSectorOf(s), p, |dev.sectors|);
    }
  }

  /** A disk has one place where the volume starts. */
  lemma OneStart(disk: Disk, p: nat, q: nat)
    requires |disk| > 0 && StartsAt(disk, p) && StartsAt(disk, q)
    ensures p == q
  {
    hide Le, IsEsp;
    if SchemeOf(disk[0]).Gpt? {
      var first, n := Le(disk[1], 72, 8), Le(disk[1], 80, 4);
      var d: nat :| d < n && NoEsp(disk, first, d) && EspAt(disk, first, d) && p == StartOf(disk, first, d) % 0x1_0000_0000 < 0x8000_0000;
      var e: nat :| e < n && NoEsp(disk, first, e) && EspAt(disk, first, e) && q == StartOf(disk, first, e) % 0x1_0000_0000 < 0x8000_0000;
      assert d == e;
    }
  }

  lemma BootFits(s: Sector)
    ensures Encodable(BootSectorOf(s))
  {
    hide Le;
    LeWritten(s, 11);
    LeWritten(s, 14);
    LeWritten(s, 32);
    LeWritten(s, 36);
    LeWritten(s, 44);
    OneByte(s, 13);
    OneByte(s, 16);
  }

  lemma OneByte(s: Sector, off: nat)
    requires off < 512
    ensures Le(s, off, 1) == s[off]
  {
  }
}
