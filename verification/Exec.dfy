/** Preparing a program image: the segments of an ELF file and the stack, mapped through the page
    tables into a new address space. */
module Exec {
  import opened Errors
  import opened Sequences
  import opened PageTables
  import opened PageTrees
  import opened AddressSpaces
  import opened UserFrames
  import opened UserSpaces
  import opened FrameCosts
  import opened Bytes
  import opened ElfLoader
  import opened UserImages

  /** Maps every page the segment touches. */
  method MapSegment(m: UserImage, s: Segment) returns (ok: bool)
    requires m.Valid() && m.Tight() && IsLoad(s) && (s.va + s.memsz + 4095) / 4096 <= m.top
    modifies m, m.u, m.u.space
    ensures m.Valid()
    ensures ok ==> m.Tight() && MappedRun(old(m.pages), m.pages, s, s.va / 4096, (s.va + s.memsz + 4095) / 4096)
    ensures !ok ==> exists p :: Touches(s, p) && |Needed(m.u.space.a, m.at, m.pages.Keys + {p})| >= |m.u.all|
    ensures forall p :: p in m.pages ==> p in old(m.pages) || Touches(s, p)
  {
    hide Zeros, Flag, MappedRun, Touches, UserImage.Valid, UserImage.Tight, Needed;
    var from, to := s.va / 4096, (s.va + s.memsz + 4095) / 4096;
    var p := from;
    RunStart(m.pages, s, from);
    while p < to
      invariant from <= p <= to && m.Valid() && m.Tight() && MappedRun(old(m.pages), m.pages, s, from, p)
    {
      RunTouches(old(m.pages), m.pages, s, p);
      ghost var before := m.pages;
      ImageSized(m);
      ok := m.MapPage(p, Flag(s.flags, 2), Flag(s.flags, 1));
      if !ok {
        return;
      }
      if p in before {
        RunShares(old(m.pages), before, s, from, p);
      } else {
        RunFills(old(m.pages), before, s, from, p);
      }
      p := p + 1;
    }
    RunTouches(old(m.pages), m.pages, s, to);
    ok := true;
  }

  /** Copies the segment's bytes from the file, page by page. */
  method CopySegment(m: UserImage, s: Segment, data: seq<Byte>)
    requires m.Valid() && s.offset + s.filesz <= |data| && forall p: nat :: s.va / 4096 <= p < (s.va + s.filesz + 4095) / 4096 ==> p in m.pages
    modifies m, m.u.space
    ensures m.Valid() && unchanged(m.u.space) && (old(m.Tight()) ==> m.Tight())
    ensures Copied(old(m.pages), m.pages, data, s.offset, s.va, s.filesz)
  {
    hide Spliced, Copied, UserImage.Valid;
    ghost var pages := m.pages;
    ImageSized(m);
    NothingCopied(pages, data, s.offset, s.va);
    var va, size, src := s.va, s.filesz, s.offset;
    while size > 0
      invariant 0 <= size <= s.filesz && va == s.va + (s.filesz - size) && src == s.offset + (s.filesz - size)
      invariant m.Valid() && unchanged(m.u.space) && Copied(pages, m.pages, data, s.offset, s.va, s.filesz - size)
    {
      var offset := va % 4096;
      var chunk := if 4096 - offset > size then size else 4096 - offset;
      StillMapped(pages, m.pages, data, s.offset, s.va, s.filesz - size);
      assert va / 4096 in m.pages;
      ChunkCopied(pages, m.pages, data, s.offset, s.va, s.filesz - size, chunk);
      m.PutBytes(va / 4096, offset, data[src..src + chunk]);
      va, size, src := va + chunk, size - chunk, src + chunk;
    }
    StillMapped(pages, m.pages, data, s.offset, s.va, s.filesz);
  }

  lemma ImageSized(m: UserImage)
    requires m.Valid()
    ensures Sized(m.pages) && forall p :: p in m.pages ==> p < m.top
  {
  }

  /** The pages that the segments touch. */
  ghost function TouchedPages(segs: seq<Segment>, top: nat): set<nat> {
    set p | 0 <= p < top && Mapped(segs, |segs|, p)
  }

  /** Loads an acceptable image into an empty user half: it runs out of memory exactly if the pages it
      touches and the tables above them, with the root, outnumber the frames. */
  method Load(m: UserImage, data: seq<Byte>, l: Layout) returns (r: Result<nat>)
    requires m.Valid() && m.Tight() && m.pages == map[] && LayoutOk(l) && l.userTop <= 4096 * m.top
    modifies m, m.u, m.u.space
    ensures m.Valid()
    ensures r.Failure? ==> r.error in {Invalid, NoMem}
    ensures r == Failure(Invalid) <==> !Acceptable(data, l)
    ensures r == Failure(NoMem) <==> Acceptable(data, l) && |Needed(m.u.space.a, m.at, TouchedPages(AllSegments(data, l), m.top))| >= |m.u.all|
    ensures r.Success? ==> m.Tight() && Acceptable(data, l) && r.value == EntryPoint(data)
    ensures r.Success? ==> Loaded(m.pages, data, AllSegments(data, l), |AllSegments(data, l)|)
  {
    hide Le, HeaderOk, SegmentAt, Loaded, MappedRun, Copied, SegmentOk, HoldsEntry, Touches, UserImage.Valid, UserImage.Tight,
      Needed, TouchedPages, LayoutOk;
    var e := Validate(data, l);
    if e != NoError {
      return Failure(e);
    }
    HeaderFits(data, l);
    ghost var segs := AllSegments(data, l);
    EmptyLoaded(data, segs);
    var n := PhNum(data);
    for i := 0 to n
      invariant m.Valid() && m.Tight() && Loaded(m.pages, data, segs, i)
    {
      EntryFits(data, n, i);
      var s := SegmentAt(data, i);
      assert s == segs[i];
      SegmentFacts(data, l, segs, i);
      ghost var pages0 := m.pages;
      if IsLoad(s) {
        EndsBelow(s, |data|, l, m.top);
        var ok := MapSegment(m, s);
        if !ok {
          TouchesMore(m, data, segs, i, pages0);
          return Failure(NoMem);
        }
        ghost var pages1 := m.pages;
        ImageSized(m);
        MappedForCopy(pages0, pages1, s);
        CopySegment(m, s, data);
        NextSegment(pages0, pages1, m.pages, data, segs, i);
        StillMapped(pages1, m.pages, data, s.offset, s.va, s.filesz);
      } else {
        SkipSegment(m.pages, data, segs, i);
      }
    }
    ImageFits(m);
    LoadedTouches(m, data, segs);
    r := Success(EntryPoint(data));
  }

  lemma EndsBelow(s: Segment, size: nat, l: Layout, top: nat)
    requires IsLoad(s) && SegmentOk(s, size, l) && LayoutOk(l) && l.userTop <= 4096 * top
    ensures (s.va + s.memsz + 4095) / 4096 <= top
  {
  }

  /** The frames were not enough for some of the pages, so they are not for all. */
  lemma TouchesMore(m: UserImage, data: seq<Byte>, segs: seq<Segment>, i: nat, pages0: Pages)
    requires m.Valid() && i < |segs| && Loaded(pages0, data, segs, i) && IsLoad(segs[i]) && (segs[i].va + segs[i].memsz + 4095) / 4096 <= m.top
    requires exists p :: Touches(segs[i], p) && |Needed(m.u.space.a, m.at, m.pages.Keys + {p})| >= |m.u.all|
    requires forall p :: p in m.pages ==> p in pages0 || Touches(segs[i], p)
    ensures |Needed(m.u.space.a, m.at, TouchedPages(segs, m.top))| >= |m.u.all|
  {
    hide UserImage.Valid, Needed, LastByte, Writable, Executable, Flag;
    var p :| Touches(segs[i], p) && |Needed(m.u.space.a, m.at, m.pages.Keys + {p})| >= |m.u.all|;
    ImageSized(m);
    forall q | q in m.pages.Keys + {p}
      ensures q in TouchedPages(segs, m.top)
    {
      assert Touches(segs[i], q) || Mapped(segs, i, q);
    }
    NeededSize(m.u.space.a, m.at, m.pages.Keys + {p}, TouchedPages(segs, m.top));
  }

  /** The frames taken are among those there are. */
  lemma ImageFits(m: UserImage)
    requires m.Valid() && m.Tight()
    ensures |Needed(m.u.space.a, m.at, m.pages.Keys)| < |m.u.all|
  {
    hide UserAddresses, Shown, Tree, PagesOk, OpenLinks, RefsOk, Accounted, Lawful, FreshPool, Counted, Needed, Taken;
    FramesAdd(m.u.space.a, m.u.space.mem, m.u.space.root, m.u.space.homes, m.u.pages, m.u.space.frames.pool, m.u.all);
  }

  lemma LoadedTouches(m: UserImage, data: seq<Byte>, segs: seq<Segment>)
    requires m.Valid() && Loaded(m.pages, data, segs, |segs|)
    ensures m.pages.Keys == TouchedPages(segs, m.top)
  {
    hide UserImage.Valid, LastByte, Writable, Executable, Mapped;
    ImageSized(m);
  }

  // ---- The stack ----

  predicate InStack(l: Layout, p: nat) {
    l.stackBottom <= 4096 * p < l.stackTop
  }

  ghost function StackPages(l: Layout): set<nat> {
    set p | 0 <= p < l.userTop && InStack(l, p)
  }

  /** `VM_USER_RW`, with the bit that says present. */
  const USER_RW: bv32 := 1 | UserPerm(true, false)

  lemma StackRights()
    ensures PermRights(USER_RW) == Rights(true, true, true, false) && USER_RW == 0x17
  {
  }

  /** Maps the stack pages; after a successful load none of them is taken, so the only failure is
      running out of frames. */
  method SetupStack(m: UserImage, l: Layout, ghost data: seq<Byte>) returns (r: Result<nat>)
    requires m.Valid() && m.Tight() && LayoutOk(l) && l.userTop <= 4096 * m.top
    requires Acceptable(data, l) && Loaded(m.pages, data, AllSegments(data, l), |AllSegments(data, l)|)
    modifies m, m.u, m.u.space
    ensures m.Valid()
    ensures r.Failure? <==> |Needed(m.u.space.a, m.at, old(m.pages).Keys + StackPages(l))| >= |m.u.all|
    ensures r.Failure? ==> r.error == NoMem
    ensures r.Success? ==> m.Tight() && r.value == l.stackTop && m.pages.Keys == old(m.pages).Keys + StackPages(l)
    ensures r.Success? ==> forall p :: p in m.pages ==> m.pages[p] == if p in old(m.pages) then old(m.pages)[p] else Page(Zeros(), true, false)
  {
    hide Zeros, Le, HeaderOk, Acceptable, AllSegments, Loaded, UserImage.Valid, UserImage.Tight, Needed, PermRights, USER_RW;
    StackRights();
    var va := l.stackBottom;
    while va < l.stackTop
      invariant l.stackBottom <= va <= l.stackTop && va % 4096 == 0 && m.Valid() && m.Tight()
      invariant forall p: nat :: p in m.pages <==> p in old(m.pages) || l.stackBottom <= 4096 * p < va
      invariant forall p :: p in m.pages ==> m.pages[p] == if p in old(m.pages) then old(m.pages)[p] else Page(Zeros(), true, false)
      decreases l.stackTop - va
    {
      var p := va / 4096;
      StackFree(old(m.pages), data, l, p);
      var ok := m.MapFresh(p, USER_RW, true, false);
      if !ok {
        NeededSize(m.u.space.a, m.at, m.pages.Keys + {p}, old(m.pages).Keys + StackPages(l));
        return Failure(NoMem);
      }
      va := va + 4096;
    }
    ImageFits(m);
    assert m.pages.Keys == old(m.pages).Keys + StackPages(l);
    r := Success(l.stackTop);
  }

  // ---- The whole image ----

  /** The segments and the stack, and nothing else: pages that segments touch have the union of their
      rights and the bytes of the last one that brought any, stack pages are zero and writable. */
  ghost predicate Prepared(pages: Pages, data: seq<Byte>, l: Layout)
    requires Acceptable(data, l)
  {
    var segs := AllSegments(data, l);
    && Sized(pages)
    && (forall p: nat :: p in pages <==> Mapped(segs, |segs|, p) || InStack(l, p))
    && (forall p :: p in pages ==>
          if InStack(l, p) then pages[p] == Page(Zeros(), true, false)
          else pages[p].write == Writable(segs, |segs|, p) && pages[p].execute == Executable(segs, |segs|, p))
    && forall va: nat :: va / 4096 in pages && !InStack(l, va / 4096) ==> ByteAt(pages, va) == LastByte(data, segs, |segs|, va)
  }

  lemma StackPrepared(pages: Pages, pages': Pages, data: seq<Byte>, l: Layout)
    requires LayoutOk(l) && Acceptable(data, l) && Loaded(pages, data, AllSegments(data, l), |AllSegments(data, l)|)
    requires pages'.Keys == pages.Keys + StackPages(l) && Sized(pages')
    requires forall p :: p in pages' ==> pages'[p] == if p in pages then pages[p] else Page(Zeros(), true, false)
    ensures Prepared(pages', data, l)
  {
    hide Le, HeaderOk, Acceptable, AllSegments, Mapped, Writable, Executable, LastByte, Zeros;
    forall p: nat | InStack(l, p)
      ensures p !in pages && p in StackPages(l)
    {
      StackFree(pages, data, l, p);
    }
    forall va: nat | va / 4096 in pages' && !InStack(l, va / 4096)
      ensures ByteAt(pages', va) == ByteAt(pages, va) && va / 4096 in pages
    {
      assert va / 4096 in StackPages(l) || va / 4096 in pages;
    }
  }

  /** User code reads page `p` from frame `f`, may write and execute it as the segments say, and finds
      their bytes there; in a stack page it finds zeros, which it may write. */
  ghost predicate Backed(a: Arch, mem: Memory, root: Word, content: map<Word, seq<Byte>>, at: nat -> Word, data: seq<Byte>, l: Layout, p: nat, f: Word)
    requires Acceptable(data, l)
  {
    var segs := AllSegments(data, l);
    && UserPage(a, mem, root, at(p), f, InStack(l, p) || Writable(segs, |segs|, p), Executable(segs, |segs|, p))
    && f in content && |content[f]| == 4096
    && forall i :: 0 <= i < 4096 ==> content[f][i] == if InStack(l, p) then 0 else LastByte(data, segs, |segs|, 4096 * p + i)
  }

  /** The page tables show user code exactly the program and its stack, each page in a frame of its own. */
  ghost predicate InMemory(a: Arch, mem: Memory, root: Word, content: map<Word, seq<Byte>>, at: nat -> Word, top: nat, data: seq<Byte>, l: Layout,
                           backing: map<nat, Word>)
    requires Acceptable(data, l)
  {
    var segs := AllSegments(data, l);
    && (forall p: nat :: p in backing <==> Mapped(segs, |segs|, p) || InStack(l, p))
    && (forall p: nat {:trigger at(p)} :: p < top && p !in backing ==> Translate(a, mem, root, at(p)).None?)
    && (forall p, q :: p in backing && q in backing && backing[p] == backing[q] ==> p == q)
    && forall p :: p in backing ==> p < top && Backed(a, mem, root, content, at, data, l, p, backing[p])
  }

  /** The frame behind a page. */
  ghost function Backing(a: Arch, mem: Memory, root: Word, frames: Paths, content: map<Word, seq<Byte>>, at: nat -> Word, p: nat, page: Page): (f: Word)
    requires exists f :: PageShown(a, mem, root, frames, content, at, p, page, f)
    ensures PageShown(a, mem, root, frames, content, at, p, page, f)
  {
    var f :| PageShown(a, mem, root, frames, content, at, p, page, f);
    f
  }

  /** What an image holds is what user code sees. */
  lemma PreparedInMemory(m: UserImage, data: seq<Byte>, l: Layout) returns (backing: map<nat, Word>)
    requires m.Valid() && LayoutOk(l) && Acceptable(data, l) && Prepared(m.pages, data, l)
    ensures InMemory(m.u.space.a, m.u.space.mem, m.u.space.root, m.content, m.at, m.top, data, l, backing)
  {
    hide Le, HeaderOk, SegmentOk, HoldsEntry, AllSegments, Mapped, Writable, Executable, LastByte, UserSpace.Valid, UserAddresses, UserPage, Zeros,
      InStack, Translate, LayoutOk, Backed;
    var a, mem, root, frames := m.u.space.a, m.u.space.mem, m.u.space.root, m.u.pages;
    backing := map p | p in m.pages :: Backing(a, mem, root, frames, m.content, m.at, p, m.pages[p]);
    forall p | p in m.pages
      ensures Backed(a, mem, root, m.content, m.at, data, l, p, backing[p])
    {
      PageBacked(a, mem, root, frames, m.content, m.at, m.pages, data, l, p, backing[p]);
    }
    forall p, q | p in backing && q in backing && backing[p] == backing[q]
      ensures p == q
    {
      if p != q {
        OtherFrame(a, frames, m.at, m.top, p, q, backing[p], backing[q]);
      }
    }
  }

  lemma PageBacked(a: Arch, mem: Memory, root: Word, frames: Paths, content: map<Word, seq<Byte>>, at: nat -> Word, pages: Pages,
                   data: seq<Byte>, l: Layout, p: nat, f: Word)
    requires LayoutOk(l) && Acceptable(data, l) && Prepared(pages, data, l) && p in pages && PageShown(a, mem, root, frames, content, at, p, pages[p], f)
    ensures Backed(a, mem, root, content, at, data, l, p, f)
  {
    hide Le, HeaderOk, SegmentOk, HoldsEntry, AllSegments, Mapped, Writable, Executable, LastByte, UserPage, InStack, LayoutOk, Maps;
    forall i | 0 <= i < 4096
      ensures pages[p].bytes[i] == if InStack(l, p) then 0 else LastByte(data, AllSegments(data, l), |AllSegments(data, l)|, 4096 * p + i)
    {
      assert (4096 * p + i) / 4096 == p && (4096 * p + i) % 4096 == i;
      assert ByteAt(pages, 4096 * p + i) == pages[p].bytes[i];
    }
    if InStack(l, p) {
      NotExecutable(data, l, p);
    }
  }

  /** No segment touches the stack. */
  lemma NotExecutable(data: seq<Byte>, l: Layout, p: nat)
    requires LayoutOk(l) && Acceptable(data, l) && InStack(l, p)
    ensures !Executable(AllSegments(data, l), |AllSegments(data, l)|, p)
  {
    hide Le, HeaderOk, SegmentOk, HoldsEntry, AllSegments, Touches;
    var segs := AllSegments(data, l);
    if Executable(segs, |segs|, p) {
      assert Mapped(segs, |segs|, p);
      StackApart(data, l, p);
    }
  }

  lemma EmptySpace(u: UserSpace, at: nat -> Word, top: nat)
    requires u.Valid() && UserAddresses(u.space.a, at, top) && forall i: Index :: i < 256 ==> Get(u.space.mem, u.space.root, i) == ZERO
    ensures forall p: nat {:trigger at(p)} :: p < top ==> Translate(u.space.a, u.space.mem, u.space.root, at(p)).None?
  {
    hide Lawful, Tree, FreshPool, Counted, PagesOk, OpenLinks, RefsOk, Accounted, Translate, UserAddresses, UserVa;
    forall p: nat | p < top
      ensures Translate(u.space.a, u.space.mem, u.space.root, at(p)).None?
    {
      UserPageVa(u.space.a, at, top, p);
      EmptyHalf(u.space.a, u.space.mem, u.space.root, at(p));
    }
  }

  lemma TightStart(m: UserImage)
    requires m.pages == map[] && Taken(m.u.space.homes, m.u.pages) == {}
    ensures m.Tight()
  {
  }

  /** Fills an empty image with the program and its stack. */
  method Build(m: UserImage, data: seq<Byte>, l: Layout) returns (r: Result<nat>, ghost backing: map<nat, Word>)
    requires m.Valid() && m.Tight() && m.pages == map[] && LayoutOk(l) && l.userTop <= 4096 * m.top
    modifies m, m.u, m.u.space
    ensures m.Valid()
    ensures r.Failure? ==> r.error in {Invalid, NoMem}
    ensures r == Failure(Invalid) <==> !Acceptable(data, l)
    ensures r == Failure(NoMem) <==> Acceptable(data, l) && TooBig(m.u.space.a, m.at, m.top, data, l, |m.u.all|)
    ensures r.Success? ==> Acceptable(data, l) && r.value == EntryPoint(data)
    ensures r.Success? ==> InMemory(m.u.space.a, m.u.space.mem, m.u.space.root, m.content, m.at, m.top, data, l, backing)
  {
    hide Le, HeaderOk, SegmentOk, HoldsEntry, SegmentAt, LayoutOk, Loaded, TouchedPages, StackPages, Needed, UserImage.Valid,
      UserImage.Tight, InMemory, Prepared;
    backing := map[];
    r := Load(m, data, l);
    if r == Failure(Invalid) {
      return;
    }
    ghost var touched := TouchedPages(AllSegments(data, l), m.top);
    NeededSize(m.u.space.a, m.at, touched, touched + StackPages(l));
    if r.Failure? {
      return;
    }
    ghost var pages := m.pages;
    LoadedTouches(m, data, AllSegments(data, l));
    var s := SetupStack(m, l, data);
    if s.Failure? {
      return Failure(s.error), backing;
    }
    ImageSized(m);
    StackPrepared(pages, m.pages, data, l);
    backing := PreparedInMemory(m, data, l);
  }

  /** The pages of the program, of its stack and the tables above them, with the root, outnumber the frames. */
  ghost predicate TooBig(a: Arch, at: nat -> Word, top: nat, data: seq<Byte>, l: Layout, frames: nat)
    requires Acceptable(data, l)
  {
    |Needed(a, at, TouchedPages(AllSegments(data, l), top) + StackPages(l))| >= frames
  }

  /** A new address space with the program and its stack; if that fails, the space is torn down and every
      frame is free again. */
  method LoadImage(a: Arch, kroot: Word, mem: Memory, frames: Frames, ghost khomes: Homes, at: nat -> Word, top: nat, data: seq<Byte>, l: Layout)
    returns (r: Result<UserImage>, entry: nat, space: Option<UserSpace>, ghost backing: map<nat, Word>)
    requires Lawful(a) && a.levels > 1 && Tree(a, mem, kroot, khomes) && FreshPool(a, frames.pool, khomes) && Counted(a, frames, khomes)
    requires forall f :: f in frames.pool ==> frames.Ref(f) == 0 && f !in frames.tables
    requires UserAddresses(a, at, top) && LayoutOk(l) && l.userTop <= 4096 * top
    ensures space.Some? <==> frames.pool != []
    ensures r.Failure? ==> r.error in {Invalid, NoMem}
    ensures r.Failure? && space.Some? ==>
              var pool := space.value.space.frames.pool; NoRepeat(pool) && (set f | f in pool) == set f | f in frames.pool
    ensures r == Failure(Invalid) <==> frames.pool != [] && !Acceptable(data, l)
    ensures r == Failure(NoMem) <==> frames.pool == [] || (Acceptable(data, l) && TooBig(a, at, top, data, l, |frames.pool|))
    ensures r.Success? ==> r.value.Valid() && r.value.u.space.a == a && r.value.at == at && r.value.top == top
    ensures r.Success? ==> Acceptable(data, l) && entry == EntryPoint(data) && space == Some(r.value.u)
    ensures r.Success? ==> InMemory(a, r.value.u.space.mem, r.value.u.space.root, r.value.content, at, top, data, l, backing)
  {
    hide Lawful, Tree, Counted, UserAddresses, LayoutOk, UserSpace.Valid, UserImage.Valid, UserImage.Tight, Taken, InMemory, TooBig, HeaderOk,
      SegmentOk, HoldsEntry, Le;
    entry, space, backing := 0, None, map[];
    var c := CreateUserPgdir(a, kroot, mem, frames, khomes);
    if c.Failure? {
      return Failure(NoMem), entry, space, backing;
    }
    space := Some(c.value);
    EmptySpace(c.value, at, top);
    var m := new UserImage(c.value, at, top);
    TightStart(m);
    var e;
    e, backing := Build(m, data, l);
    if e.Success? {
      return Success(m), e.value, space, backing;
    }
    SpaceOf(m);
    m.u.FreeUserPgdir();
    r := Failure(e.error);
  }

  lemma SpaceOf(m: UserImage)
    requires m.Valid()
    ensures m.u.Valid()
  {
  }
}
