/** Loading an ELF image: which images are accepted, and what user memory holds afterwards. */
module ElfLoader {
  import opened Errors
  import opened Bytes
  import opened Sequences

  // ---- The file ----

  const HEADER := 64           // bytes of the file header
  const ENTRY := 56            // bytes of a program header

  datatype Segment = Segment(kind: nat, flags: nat, offset: nat, va: nat, filesz: nat, memsz: nat)

  function PhOff(data: seq<Byte>): nat
    requires |data| >= HEADER
  {
    Le(data, 32, 8)
  }

  function PhNum(data: seq<Byte>): nat
    requires |data| >= HEADER
  {
    Le(data, 56, 2)
  }

  function EntryPoint(data: seq<Byte>): nat
    requires |data| >= HEADER
  {
    Le(data, 24, 8)
  }

  /** The header is of a 64-bit executable for this machine, of the sizes the loader knows. */
  predicate HeaderOk(data: seq<Byte>, machine: nat, userTop: nat) {
    && |data| >= HEADER
    && Le(data, 0, 4) == 0x464C457F && data[4] == 2 && Le(data, 20, 4) == 1 && Le(data, 18, 2) == machine
    && Le(data, 16, 2) == 2 && PhOff(data) != 0 && PhNum(data) != 0
    && Le(data, 52, 2) == HEADER && Le(data, 54, 2) == ENTRY
    && HEADER <= PhOff(data) <= |data| && PhNum(data) * ENTRY <= |data| - PhOff(data)
    && 4096 <= EntryPoint(data) < userTop
  }

  /** The `i`-th program header. */
  function SegmentAt(data: seq<Byte>, i: nat): Segment
    requires |data| >= HEADER && PhOff(data) + (i + 1) * ENTRY <= |data|
  {
    var o := PhOff(data) + i * ENTRY;
    Segment(Le(data, o, 4), Le(data, o + 4, 4), Le(data, o + 8, 8), Le(data, o + 16, 8), Le(data, o + 32, 8), Le(data, o + 40, 8))
  }

  predicate Flag(flags: nat, bit: nat)
    requires bit > 0
  {
    flags / bit % 2 == 1
  }

  /** Where a process keeps its code and data: below `userTop`, apart from the stack. */
  datatype Layout = Layout(machine: nat, userTop: nat, stackBottom: nat, stackTop: nat)

  ghost predicate LayoutOk(l: Layout) {
    l.stackBottom % 4096 == 0 && l.stackTop % 4096 == 0 && l.userTop % 4096 == 0 && 4096 <= l.stackBottom < l.stackTop < l.userTop
  }

  /** A loadable segment lies inside the file and inside user space, and does not meet the stack. */
  predicate SegmentOk(s: Segment, size: nat, l: Layout) {
    s.kind == 1 ==>
      && s.filesz <= s.memsz && s.offset <= size && s.filesz <= size - s.offset
      && (s.memsz != 0 ==>
            && 4096 <= s.va < l.userTop && s.memsz <= l.userTop - s.va
            && (s.va + s.memsz <= l.stackBottom || s.va >= l.stackTop))
  }

  /** The segment is executable and holds the entry point. */
  predicate HoldsEntry(s: Segment, entry: nat) {
    s.kind == 1 && s.memsz != 0 && Flag(s.flags, 1) && s.va <= entry < s.va + s.memsz
  }

  /** A segment is in order if it is not loaded, or its bytes are in the file, fill it at most, and every address of it is a user
      address above the first page and outside the stack. */
  lemma SegmentMeans(s: Segment, size: nat, l: Layout)
    requires l.stackBottom < l.stackTop
    ensures s.kind != 1 ==> SegmentOk(s, size, l)
    ensures s.kind == 1 ==> (SegmentOk(s, size, l) <==>
              && s.offset + s.filesz <= size && s.filesz <= s.memsz
              && forall x: nat :: Inside(s, x) ==> 4096 <= x < l.userTop && !(l.stackBottom <= x < l.stackTop))
  {
    if s.kind == 1 && s.memsz != 0 {
      assert Inside(s, s.va) && Inside(s, s.va + s.memsz - 1);
      if s.va < l.stackBottom < s.va + s.memsz {
        assert Inside(s, l.stackBottom);
      }
    }
  }

  ghost predicate Inside(s: Segment, x: nat) {
    s.va <= x < s.va + s.memsz
  }

  lemma EntryMeans(s: Segment, entry: nat)
    ensures HoldsEntry(s, entry) <==> s.kind == 1 && s.flags % 2 == 1 && Inside(s, entry)
  {
  }

  /** The flag bits of the format: 1 to execute, 2 to write, 4 to read. */
  lemma FlagBits(execute: bool, write: bool, read: bool, more: nat)
    ensures var f := (if execute then 1 else 0) + (if write then 2 else 0) + (if read then 4 else 0) + 8 * more;
      (Flag(f, 1) <==> execute) && (Flag(f, 2) <==> write)
  {
  }

  /** The program headers of an image whose header is in order. */
  function Segments(data: seq<Byte>, n: nat): (r: seq<Segment>)
    requires |data| >= HEADER && PhOff(data) + n * ENTRY <= |data|
    ensures |r| == n && forall i :: 0 <= i < n ==> r[i] == SegmentAt(data, i)
  {
    if n == 0 then [] else Segments(data, n - 1) + [SegmentAt(data, n - 1)]
  }

  function AllSegments(data: seq<Byte>, l: Layout): seq<Segment>
    requires HeaderOk(data, l.machine, l.userTop)
  {
    Segments(data, PhNum(data))
  }

  /** Acceptable images: every segment is in order, and one holds the entry point. */
  ghost predicate Acceptable(data: seq<Byte>, l: Layout) {
    && HeaderOk(data, l.machine, l.userTop)
    && var segs := AllSegments(data, l);
       && (forall i :: 0 <= i < |segs| ==> SegmentOk(segs[i], |data|, l))
       && exists i :: 0 <= i < |segs| && HoldsEntry(segs[i], EntryPoint(data))
  }

  method Validate(data: seq<Byte>, l: Layout) returns (e: Error)
    ensures e == (if Acceptable(data, l) then NoError else Invalid)
  {
    hide Le, HeaderOk, SegmentOk, HoldsEntry, SegmentAt;
    if !HeaderOk(data, l.machine, l.userTop) {
      return Invalid;
    }
    HeaderFits(data, l);
    ghost var segs := AllSegments(data, l);
    var n, entry, found := PhNum(data), EntryPoint(data), false;
    for i := 0 to n
      invariant forall j :: 0 <= j < i ==> SegmentOk(segs[j], |data|, l)
      invariant found <==> exists j :: 0 <= j < i && HoldsEntry(segs[j], entry)
    {
      EntryFits(data, n, i);
      var s := SegmentAt(data, i);
      assert s == segs[i];
      if !SegmentOk(s, |data|, l) {
        return Invalid;
      }
      if HoldsEntry(s, entry) {
        found := true;
      }
    }
    return if found then NoError else Invalid;
  }

  lemma HeaderFits(data: seq<Byte>, l: Layout)
    requires HeaderOk(data, l.machine, l.userTop)
    ensures |data| >= HEADER && PhOff(data) + PhNum(data) * ENTRY <= |data|
  {
  }

  lemma EntryFits(data: seq<Byte>, n: nat, i: nat)
    requires |data| >= HEADER && PhOff(data) + n * ENTRY <= |data| && i < n
    ensures PhOff(data) + (i + 1) * ENTRY <= |data|
  {
  }

  // ---- The file format: System V gABI, chapters "ELF Header" and "Program Header" ----

  /** The fields of a file header; `magic` is its first four bytes, `rest` the identification behind the class. */
  datatype FileHeader = FileHeader(
    magic: seq<nat>, wordSize: nat, rest: nat, kind: nat, machine: nat, version: nat, entry: nat, phoff: nat, shoff: nat, flags: nat,
    ehsize: nat, phentsize: nat, phnum: nat, shentsize: nat, shnum: nat, shstrndx: nat)

  ghost predicate Encodable(h: FileHeader) {
    && |h.magic| == 4 && (forall i :: 0 <= i < 4 ==> h.magic[i] < 0x100) && h.wordSize < 0x100
    && h.kind < 0x1_0000 && h.machine < 0x1_0000 && h.version < 0x1_0000_0000
    && h.entry < 0x1_0000_0000_0000_0000 && h.phoff < 0x1_0000_0000_0000_0000
    && h.ehsize < 0x1_0000 && h.phentsize < 0x1_0000 && h.phnum < 0x1_0000
  }

  ghost function HeaderFields(h: FileHeader): seq<Field>
    requires |h.magic| == 4
  {
    [Field(h.magic[0], 1), Field(h.magic[1], 1), Field(h.magic[2], 1), Field(h.magic[3], 1), Field(h.wordSize, 1), Field(h.rest, 11),
     Field(h.kind, 2), Field(h.machine, 2), Field(h.version, 4), Field(h.entry, 8), Field(h.phoff, 8), Field(h.shoff, 8), Field(h.flags, 4),
     Field(h.ehsize, 2), Field(h.phentsize, 2), Field(h.phnum, 2), Field(h.shentsize, 2), Field(h.shnum, 2), Field(h.shstrndx, 2)]
  }

  lemma HeaderStarts(h: FileHeader)
    requires |h.magic| == 4
    ensures var f := HeaderFields(h);
      && FieldStart(f, 1) == 1 && FieldStart(f, 2) == 2 && FieldStart(f, 3) == 3 && FieldStart(f, 4) == 4 && FieldStart(f, 6) == 16
      && FieldStart(f, 7) == 18 && FieldStart(f, 8) == 20 && FieldStart(f, 9) == 24 && FieldStart(f, 10) == 32 && FieldStart(f, 13) == 52
      && FieldStart(f, 14) == 54 && FieldStart(f, 15) == 56 && FieldStart(f, 19) == 64
  {
    var f := HeaderFields(h);
    assert FieldStart(f, 1) == 1 && FieldStart(f, 2) == 2 && FieldStart(f, 3) == 3 && FieldStart(f, 4) == 4 && FieldStart(f, 5) == 5;
    assert FieldStart(f, 6) == 16 && FieldStart(f, 7) == 18 && FieldStart(f, 8) == 20 && FieldStart(f, 9) == 24 && FieldStart(f, 10) == 32;
    assert FieldStart(f, 11) == 40 && FieldStart(f, 12) == 48 && FieldStart(f, 13) == 52 && FieldStart(f, 14) == 54 && FieldStart(f, 15) == 56;
    assert FieldStart(f, 16) == 58 && FieldStart(f, 17) == 60 && FieldStart(f, 18) == 62;
  }

  /** The file begins with this header. */
  ghost predicate HasHeader(data: seq<Byte>, h: FileHeader) {
    Encodable(h) && 64 <= |data| && data[..64] == Packed(HeaderFields(h))
  }

  lemma HeaderField(data: seq<Byte>, h: FileHeader, i: nat)
    requires HasHeader(data, h) && i < 19 && HeaderFields(h)[i].value < Limit(HeaderFields(h)[i].width)
    ensures FieldStart(HeaderFields(h), i) + HeaderFields(h)[i].width <= |data|
    ensures Le(data, FieldStart(HeaderFields(h), i), HeaderFields(h)[i].width) == HeaderFields(h)[i].value
  {
    hide Packed, FieldStart, Le, Limit;
    HeaderStarts(h);
    assert data[0..0 + |Packed(HeaderFields(h))|] == data[..64];
    FieldRead(data, 0, HeaderFields(h), i);
  }

  /** The loader reads the header where the format puts its fields. */
  lemma HeaderRead(data: seq<Byte>, h: FileHeader)
    requires HasHeader(data, h)
    ensures EntryPoint(data) == h.entry && PhOff(data) == h.phoff && PhNum(data) == h.phnum
    ensures data[..4] == h.magic && data[4] == h.wordSize
    ensures Le(data, 16, 2) == h.kind && Le(data, 18, 2) == h.machine && Le(data, 20, 4) == h.version
    ensures Le(data, 52, 2) == h.ehsize && Le(data, 54, 2) == h.phentsize
  {
    hide Packed, FieldStart, Limit;
    Limits();
    HeaderStarts(h);
    HeaderField(data, h, 9);
    HeaderField(data, h, 10);
    HeaderField(data, h, 15);
    HeaderField(data, h, 6);
    HeaderField(data, h, 7);
    HeaderField(data, h, 8);
    HeaderField(data, h, 13);
    HeaderField(data, h, 14);
    HeaderBytes(data, h);
  }

  lemma HeaderBytes(data: seq<Byte>, h: FileHeader)
    requires HasHeader(data, h)
    ensures data[..4] == h.magic && data[4] == h.wordSize
  {
    hide Packed, FieldStart, Limit;
    Limits();
    HeaderStarts(h);
    var f := HeaderFields(h);
    assert FieldStart(f, 0) == 0 by { StartsAtZero(f); }
    HeaderField(data, h, 0);
    HeaderField(data, h, 1);
    HeaderField(data, h, 2);
    HeaderField(data, h, 3);
    HeaderField(data, h, 4);
    assert Le(data, 0, 1) == data[0] && Le(data, 1, 1) == data[1] && Le(data, 2, 1) == data[2] && Le(data, 3, 1) == data[3] && Le(data, 4, 1) == data[4];
  }

  lemma StartsAtZero(f: seq<Field>)
    ensures FieldStart(f, 0) == 0
  {
  }

  /** Which headers are accepted, in terms of the format: a 64-bit executable of version 1 for this machine
      whose program headers lie in the file. */
  lemma HeaderAccepted(data: seq<Byte>, h: FileHeader, machine: nat, userTop: nat)
    requires HasHeader(data, h)
    ensures HeaderOk(data, machine, userTop) <==>
            && h.magic == [0x7F, 0x45, 0x4C, 0x46] && h.wordSize == 2 && h.version == 1 && h.machine == machine && h.kind == 2
            && h.ehsize == 64 && h.phentsize == 56 && h.phnum > 0 && 64 <= h.phoff && h.phoff + 56 * h.phnum <= |data|
            && 4096 <= h.entry < userTop
  {
    HeaderRead(data, h);
    LeWritten(data, 0);
    assert data[0] == data[..4][0] && data[1] == data[..4][1] && data[2] == data[..4][2] && data[3] == data[..4][3];
    if Le(data, 0, 4) == 0x464C457F {
      FourDigits(data[0], data[1], data[2], data[3]);
    }
  }

  lemma FourDigits(b0: Byte, b1: Byte, b2: Byte, b3: Byte)
    requires LittleEndian(b0, b1, b2, b3) == 0x464C457F
    ensures b0 == 0x7F && b1 == 0x45 && b2 == 0x4C && b3 == 0x46
  {
  }

  ghost function ProgramFields(s: Segment, pa: nat, align: nat): seq<Field> {
    [Field(s.kind, 4), Field(s.flags, 4), Field(s.offset, 8), Field(s.va, 8), Field(pa, 8), Field(s.filesz, 8), Field(s.memsz, 8), Field(align, 8)]
  }

  lemma ProgramStarts(s: Segment, pa: nat, align: nat)
    ensures var f := ProgramFields(s, pa, align);
      && FieldStart(f, 0) == 0 && FieldStart(f, 1) == 4 && FieldStart(f, 2) == 8 && FieldStart(f, 3) == 16 && FieldStart(f, 5) == 32
      && FieldStart(f, 6) == 40 && FieldStart(f, 8) == 56
  {
    var f := ProgramFields(s, pa, align);
    assert FieldStart(f, 1) == 4 && FieldStart(f, 2) == 8 && FieldStart(f, 3) == 16 && FieldStart(f, 4) == 24;
    assert FieldStart(f, 5) == 32 && FieldStart(f, 6) == 40 && FieldStart(f, 7) == 48;
  }

  /** A program header written as the format says is read as it was. */
  lemma SegmentRead(data: seq<Byte>, i: nat, s: Segment, pa: nat, align: nat)
    requires |data| >= 64 && PhOff(data) + 56 * i + 56 <= |data|
    requires s.kind < 0x1_0000_0000 && s.flags < 0x1_0000_0000 && s.offset < 0x1_0000_0000_0000_0000 && s.va < 0x1_0000_0000_0000_0000
    requires s.filesz < 0x1_0000_0000_0000_0000 && s.memsz < 0x1_0000_0000_0000_0000
    requires data[PhOff(data) + 56 * i..PhOff(data) + 56 * i + 56] == Packed(ProgramFields(s, pa, align))
    ensures SegmentAt(data, i) == s
  {
    hide Packed, FieldStart, Limit, Le, PhOff;
    Limits();
    ProgramStarts(s, pa, align);
    var o, f := PhOff(data) + 56 * i, ProgramFields(s, pa, align);
    FieldRead(data, o, f, 0);
    FieldRead(data, o, f, 1);
    FieldRead(data, o, f, 2);
    FieldRead(data, o, f, 3);
    FieldRead(data, o, f, 5);
    FieldRead(data, o, f, 6);
  }

  // ---- User memory ----

  /** A mapped page: its bytes and what user code may do with them beside reading. */
  datatype Page = Page(bytes: seq<Byte>, write: bool, execute: bool)

  type Pages = map<nat, Page>

  ghost predicate Sized(pages: Pages) {
    forall p :: p in pages ==> |pages[p].bytes| == 4096
  }

  function ByteAt(pages: Pages, va: nat): Byte {
    if va / 4096 in pages && va % 4096 < |pages[va / 4096].bytes| then pages[va / 4096].bytes[va % 4096] else 0
  }

  predicate IsLoad(s: Segment) {
    s.kind == 1 && s.memsz != 0
  }

  /** The segment occupies part of page `p`. */
  predicate Touches(s: Segment, p: nat) {
    IsLoad(s) && s.va / 4096 <= p < (s.va + s.memsz + 4095) / 4096
  }

  /** The segment brings file bytes to address `va`. */
  predicate Backs(s: Segment, va: nat) {
    IsLoad(s) && s.va <= va < s.va + s.filesz
  }

  // ---- What memory should hold after the first `k` segments ----

  ghost predicate Mapped(segs: seq<Segment>, k: nat, p: nat)
    requires k <= |segs|
  {
    exists i :: 0 <= i < k && Touches(segs[i], p)
  }

  ghost predicate Writable(segs: seq<Segment>, k: nat, p: nat)
    requires k <= |segs|
  {
    exists i :: 0 <= i < k && Touches(segs[i], p) && Flag(segs[i].flags, 2)
  }

  ghost predicate Executable(segs: seq<Segment>, k: nat, p: nat)
    requires k <= |segs|
  {
    exists i :: 0 <= i < k && Touches(segs[i], p) && Flag(segs[i].flags, 1)
  }

  /** The byte of the last file-backed segment that covers `va`, or zero. */
  ghost function LastByte(data: seq<Byte>, segs: seq<Segment>, k: nat, va: nat): Byte
    requires k <= |segs|
  {
    if k == 0 then 0
    else if Backs(segs[k - 1], va) then FileByte(data, segs[k - 1], va)
    else LastByte(data, segs, k - 1, va)
  }

  ghost function FileByte(data: seq<Byte>, s: Segment, va: nat): Byte
    requires s.va <= va
  {
    var at := s.offset + (va - s.va);
    if at < |data| then data[at] else 0
  }

  /** Exactly the touched pages are mapped, with the union of the rights of the segments that touch
      them, and every byte is that of the last segment that brought one. */
  ghost predicate Loaded(pages: Pages, data: seq<Byte>, segs: seq<Segment>, k: nat)
    requires k <= |segs|
  {
    && Sized(pages)
    && (forall p: nat :: p in pages <==> Mapped(segs, k, p))
    && (forall p :: p in pages ==> pages[p].write == Writable(segs, k, p) && pages[p].execute == Executable(segs, k, p))
    && (forall va: nat :: va / 4096 in pages ==> ByteAt(pages, va) == LastByte(data, segs, k, va))
  }

  // ---- Mapping a segment's pages ----

  /** Pages `from..to` are mapped with at least the segment's rights; mapped ones keep bytes and
      rights, fresh ones are zero and have just these rights. */
  ghost predicate MappedRun(pages: Pages, pages': Pages, s: Segment, from: nat, to: nat) {
    && (forall p: nat :: p in pages' <==> p in pages || from <= p < to)
    && (forall p :: p in pages && !(from <= p < to) ==> pages'[p] == pages[p])
    && (forall p :: p in pages && from <= p < to ==>
          pages'[p] == Shared(pages[p], s))
    && (forall p :: p in pages' && p !in pages ==> pages'[p] == Fresh(s))
  }

  function Zeros(): (z: seq<Byte>)
    ensures |z| == 4096 && forall i :: 0 <= i < 4096 ==> z[i] == 0
  {
    seq(4096, i => 0)
  }

  /** A page that is already mapped gains the segment's rights; a new one is zero and has just these. */
  function Shared(page: Page, s: Segment): Page {
    Widened(page, Flag(s.flags, 2), Flag(s.flags, 1))
  }

  /** A page with more rights. */
  function Widened(page: Page, write: bool, execute: bool): Page {
    Page(page.bytes, page.write || write, page.execute || execute)
  }

  function Fresh(s: Segment): Page {
    Page(Zeros(), Flag(s.flags, 2), Flag(s.flags, 1))
  }

  lemma RunStart(pages: Pages, s: Segment, from: nat)
    ensures MappedRun(pages, pages, s, from, from)
  {
  }

  lemma RunShares(pages: Pages, pages': Pages, s: Segment, from: nat, p: nat)
    requires from <= p && Sized(pages') && MappedRun(pages, pages', s, from, p) && p in pages'
    ensures Sized(pages'[p := Shared(pages'[p], s)]) && MappedRun(pages, pages'[p := Shared(pages'[p], s)], s, from, p + 1)
  {
    hide Fresh, Flag;
    assert p in pages && pages'[p] == pages[p];
  }

  lemma RunFills(pages: Pages, pages': Pages, s: Segment, from: nat, p: nat)
    requires from <= p && Sized(pages') && MappedRun(pages, pages', s, from, p) && p !in pages'
    ensures Sized(pages'[p := Fresh(s)]) && MappedRun(pages, pages'[p := Fresh(s)], s, from, p + 1)
  {
    hide Shared;
    assert p !in pages;
  }

  lemma RunTouches(pages: Pages, pages': Pages, s: Segment, p: nat)
    requires IsLoad(s) && s.va / 4096 <= p <= (s.va + s.memsz + 4095) / 4096 && MappedRun(pages, pages', s, s.va / 4096, p)
    ensures p < (s.va + s.memsz + 4095) / 4096 ==> Touches(s, p)
    ensures forall q :: q in pages' ==> q in pages || Touches(s, q)
  {
  }

  // ---- Copying a segment's bytes ----

  /** `n` bytes of the file from `src` on are at `va`; other bytes, and all rights, are as before. */
  ghost predicate Copied(pages: Pages, pages': Pages, data: seq<Byte>, src: nat, va: nat, n: nat) {
    && Sized(pages') && pages'.Keys == pages.Keys && src + n <= |data|
    && (forall p :: p in pages ==> pages'[p].write == pages[p].write && pages'[p].execute == pages[p].execute)
    && forall a: nat :: a / 4096 in pages ==> ByteAt(pages', a) == if va <= a < va + n then data[src + (a - va)] else ByteAt(pages, a)
  }

  lemma ChunkCopied(pages: Pages, pages1: Pages, data: seq<Byte>, src: nat, va: nat, done: nat, chunk: nat)
    requires Copied(pages, pages1, data, src, va, done) && src + done + chunk <= |data| && chunk > 0
    requires var at := va + done; at / 4096 in pages1 && at % 4096 + chunk <= 4096
    ensures var at := va + done; var p := at / 4096; var off := at % 4096;
      && off + chunk <= |pages1[p].bytes|
      && Copied(pages, pages1[p := pages1[p].(bytes := Spliced(pages1[p].bytes, off, data[src + done..src + done + chunk]))], data, src, va, done + chunk)
  {
    hide Spliced;
    var at := va + done;
    var p, off, part := at / 4096, at % 4096, data[src + done..src + done + chunk];
    var pages' := pages1[p := pages1[p].(bytes := Spliced(pages1[p].bytes, off, part))];
    forall a: nat | a / 4096 in pages
      ensures ByteAt(pages', a) == if va <= a < va + done + chunk then data[src + (a - va)] else ByteAt(pages, a)
    {
      if a / 4096 == p {
        SplicedAt(pages1[p].bytes, off, part, a % 4096);
      } else {
        assert a < at || at + chunk <= a;
      }
    }
  }

  lemma NothingCopied(pages: Pages, data: seq<Byte>, src: nat, va: nat)
    requires Sized(pages) && src <= |data|
    ensures Copied(pages, pages, data, src, va, 0)
  {
  }

  lemma StillMapped(pages: Pages, pages': Pages, data: seq<Byte>, src: nat, va: nat, n: nat)
    requires Copied(pages, pages', data, src, va, n)
    ensures pages'.Keys == pages.Keys && Sized(pages')
  {
  }

  // ---- Loading ----

  /** A segment that is not loadable changes nothing. */
  lemma SkipSegment(pages: Pages, data: seq<Byte>, segs: seq<Segment>, k: nat)
    requires k < |segs| && Loaded(pages, data, segs, k) && !IsLoad(segs[k])
    ensures Loaded(pages, data, segs, k + 1)
  {
    forall p: nat
      ensures Mapped(segs, k + 1, p) == Mapped(segs, k, p) && Writable(segs, k + 1, p) == Writable(segs, k, p)
      ensures Executable(segs, k + 1, p) == Executable(segs, k, p)
    {
    }
  }

  /** Mapping and copying the next segment brings memory to what it should hold after it. */
  lemma NextSegment(pages: Pages, pages1: Pages, pages2: Pages, data: seq<Byte>, segs: seq<Segment>, k: nat)
    requires k < |segs| && Loaded(pages, data, segs, k) && IsLoad(segs[k])
    requires forall i :: 0 <= i <= k && IsLoad(segs[i]) ==> segs[i].filesz <= segs[i].memsz
    requires MappedRun(pages, pages1, segs[k], segs[k].va / 4096, (segs[k].va + segs[k].memsz + 4095) / 4096) && Sized(pages1)
    requires Copied(pages1, pages2, data, segs[k].offset, segs[k].va, segs[k].filesz)
    ensures Loaded(pages2, data, segs, k + 1)
  {
    hide LastByte, ByteAt, Flag;
    var s := segs[k];
    forall p: nat
      ensures p in pages2 <==> Mapped(segs, k + 1, p)
      ensures p in pages2 ==> pages2[p].write == Writable(segs, k + 1, p) && pages2[p].execute == Executable(segs, k + 1, p)
    {
      NextRights(pages, pages1, pages2, data, segs, k, p);
    }
    forall va: nat | va / 4096 in pages2
      ensures ByteAt(pages2, va) == LastByte(data, segs, k + 1, va)
    {
      NextByte(pages, pages1, pages2, data, segs, k, va);
    }
  }

  lemma NextRights(pages: Pages, pages1: Pages, pages2: Pages, data: seq<Byte>, segs: seq<Segment>, k: nat, p: nat)
    requires k < |segs| && Loaded(pages, data, segs, k) && IsLoad(segs[k])
    requires MappedRun(pages, pages1, segs[k], segs[k].va / 4096, (segs[k].va + segs[k].memsz + 4095) / 4096)
    requires Copied(pages1, pages2, data, segs[k].offset, segs[k].va, segs[k].filesz)
    ensures p in pages2 <==> Mapped(segs, k + 1, p)
    ensures p in pages2 ==> pages2[p].write == Writable(segs, k + 1, p) && pages2[p].execute == Executable(segs, k + 1, p)
  {
    hide LastByte, ByteAt, Flag;
    assert Mapped(segs, k + 1, p) == (Mapped(segs, k, p) || Touches(segs[k], p));
    assert Writable(segs, k + 1, p) == (Writable(segs, k, p) || (Touches(segs[k], p) && Flag(segs[k].flags, 2)));
    assert Executable(segs, k + 1, p) == (Executable(segs, k, p) || (Touches(segs[k], p) && Flag(segs[k].flags, 1)));
  }

  lemma {:induction false} UnmappedIsZero(data: seq<Byte>, segs: seq<Segment>, k: nat, va: nat)
    requires k <= |segs| && !Mapped(segs, k, va / 4096) && forall i :: 0 <= i < k && IsLoad(segs[i]) ==> segs[i].filesz <= segs[i].memsz
    ensures LastByte(data, segs, k, va) == 0
    decreases k
  {
    if k > 0 {
      UnmappedIsZero(data, segs, k - 1, va);
      assert !Touches(segs[k - 1], va / 4096);
    }
  }

  lemma NextByte(pages: Pages, pages1: Pages, pages2: Pages, data: seq<Byte>, segs: seq<Segment>, k: nat, va: nat)
    requires k < |segs| && Loaded(pages, data, segs, k) && IsLoad(segs[k])
    requires forall i :: 0 <= i <= k && IsLoad(segs[i]) ==> segs[i].filesz <= segs[i].memsz
    requires MappedRun(pages, pages1, segs[k], segs[k].va / 4096, (segs[k].va + segs[k].memsz + 4095) / 4096) && Sized(pages1)
    requires Copied(pages1, pages2, data, segs[k].offset, segs[k].va, segs[k].filesz) && va / 4096 in pages2
    ensures ByteAt(pages2, va) == LastByte(data, segs, k + 1, va)
  {
    hide Flag, Mapped, Writable, Executable;
    if !Backs(segs[k], va) {
      if va / 4096 !in pages {
        UnmappedIsZero(data, segs, k, va);
      }
    }
  }

  lemma EmptyLoaded(data: seq<Byte>, segs: seq<Segment>)
    ensures Loaded(map[], data, segs, 0)
  {
  }

  lemma SegmentFacts(data: seq<Byte>, l: Layout, segs: seq<Segment>, i: nat)
    requires Acceptable(data, l) && segs == AllSegments(data, l) && i < |segs|
    ensures forall j :: 0 <= j <= i && IsLoad(segs[j]) ==> segs[j].filesz <= segs[j].memsz
    ensures IsLoad(segs[i]) ==> segs[i].offset + segs[i].filesz <= |data|
  {
    hide Le, HeaderOk, SegmentAt, HoldsEntry;
    assert forall j :: 0 <= j <= i ==> SegmentOk(segs[j], |data|, l);
  }

  lemma MappedForCopy(pages: Pages, pages1: Pages, s: Segment)
    requires MappedRun(pages, pages1, s, s.va / 4096, (s.va + s.memsz + 4095) / 4096) && s.filesz <= s.memsz
    ensures forall p: nat :: s.va / 4096 <= p < (s.va + s.filesz + 4095) / 4096 ==> p in pages1
  {
    assert (s.va + s.filesz + 4095) / 4096 <= (s.va + s.memsz + 4095) / 4096;
  }

  // ---- Image and stack ----

  /** No page of an accepted image meets the stack, page zero, or the end of user space. */
  lemma StackApart(data: seq<Byte>, l: Layout, p: nat)
    requires LayoutOk(l) && Acceptable(data, l) && Mapped(AllSegments(data, l), |AllSegments(data, l)|, p)
    ensures 4096 * p + 4096 <= l.stackBottom || l.stackTop <= 4096 * p
    ensures 4096 <= 4096 * p && 4096 * p + 4096 <= l.userTop
  {
    hide Le, HeaderOk, SegmentAt, HoldsEntry, Flag;
    var segs := AllSegments(data, l);
    var i :| 0 <= i < |segs| && Touches(segs[i], p);
    assert SegmentOk(segs[i], |data|, l);
    PageApart(segs[i], |data|, l, p);
  }

  lemma PageApart(s: Segment, size: nat, l: Layout, p: nat)
    requires LayoutOk(l) && SegmentOk(s, size, l) && Touches(s, p)
    ensures 4096 * p + 4096 <= l.stackBottom || l.stackTop <= 4096 * p
    ensures 4096 <= 4096 * p && 4096 * p + 4096 <= l.userTop
  {
    assert 4096 * p < s.va + s.memsz && s.va < 4096 * p + 4096;
  }

  lemma StackFree(pages: Pages, data: seq<Byte>, l: Layout, p: nat)
    requires LayoutOk(l) && Acceptable(data, l) && Loaded(pages, data, AllSegments(data, l), |AllSegments(data, l)|)
    requires l.stackBottom <= 4096 * p < l.stackTop
    ensures p !in pages
  {
    hide Le, HeaderOk, Acceptable, AllSegments, Mapped, Writable, Executable, LastByte;
    if p in pages {
      StackApart(data, l, p);
    }
  }
}
