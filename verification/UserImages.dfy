/** A program image in user memory: pages through the page tables, bytes in the frames behind them. */
module UserImages {
  import opened Errors
  import opened Sequences
  import opened PageTables
  import opened PageTrees
  import opened AddressSpaces
  import opened UserFrames
  import opened UserSpaces
  import opened FrameCosts
  import opened Bytes
  import opened ElfLoader

  // ---- What a user address may do is what its leaf entry says ----

  /** The links on the way to a user page take no right away. */
  lemma {:induction false} OpenWalk(a: Arch, mem: Memory, root: Word, homes: Homes, frame: Word, va: Word, l: nat, t: Word, m: nat)
    requires Tree(a, mem, root, homes) && OpenLinks(a, mem, homes) && UserVa(a, va) && frame in homes && m < a.levels
    requires homes[frame] == Place(l, Path(a, va, l)) && Leads(a, mem, frame, va, l, t, m)
    ensures PathRights(a, mem, frame, va, l, m) == ALL
    decreases m - l
  {
    hide Tree, UserVa, Path;
    if l < m {
      var e := Get(mem, frame, a.index(va, l));
      UserPathOf(a, va, l);
      EntryHome(a, mem, root, homes, frame, a.index(va, l));
      PathNext(a, va, l);
      OpenWalk(a, mem, root, homes, a.addr(e), va, l + 1, t, m);
    }
  }

  /** User page `va` goes to frame `f`, and user code may read it, and write or execute it as told. */
  ghost predicate UserPage(a: Arch, mem: Memory, root: Word, va: Word, f: Word, write: bool, execute: bool) {
    forall vb :: SamePage(a, va, vb) ==>
      var r := Translate(a, mem, root, vb);
      r.Some? && r.value.pa == InFrame(f, vb) && r.value.rights == Rights(true, true, write, execute)
  }

  /** A page mapped with user rights has them. */
  lemma MappedUser(a: Arch, mem: Memory, mem': Memory, root: Word, homes: Homes, va: Word, t: Word, f: Word, perm: bv32, write: bool, execute: bool)
    requires a.levels > 0 && Tree(a, mem', root, homes) && OpenLinks(a, mem', homes) && UserVa(a, va)
    requires PermRights(perm) == Rights(true, true, write, execute)
    requires OnePage(a, mem, mem', root, va, f, perm) && LeadsToLeaf(a, mem', root, va, 0, t)
    ensures UserPage(a, mem', root, va, f, write, execute)
  {
    hide Tree, OpenLinks, UserVa, Path, SamePage, Translate, PermRights;
    RootPlace(a, mem', root, homes, va);
    OpenWalk(a, mem', root, homes, root, va, 0, t, a.levels - 1);
    assert forall r: Rights :: Meet(ALL, r) == r;
  }

  // ---- A page that is mapped already gains rights ----

  /** Rewriting a leaf that keeps its frame. */
  lemma RewritePage(a: Arch, va: Word, mem: Memory, homes: Homes, pages: Paths, t: Word, word: Word)
    requires PagesOk(a, mem, homes, pages) && a.levels > 0 && t in homes && homes[t] == Place(a.levels - 1, Path(a, va, a.levels - 1))
    requires a.present(Get(mem, t, a.index(va, a.levels - 1))) && a.present(word) && a.addr(word) == a.addr(Get(mem, t, a.index(va, a.levels - 1)))
    ensures PagesOk(a, mem[(t, a.index(va, a.levels - 1)) := word], homes, pages)
  {
    hide UserPath, Path;
    var mem', i := mem[(t, a.index(va, a.levels - 1)) := word], a.index(va, a.levels - 1);
    forall u, j
      ensures a.present(Get(mem', u, j)) == a.present(Get(mem, u, j)) && (a.present(Get(mem, u, j)) ==> a.addr(Get(mem', u, j)) == a.addr(Get(mem, u, j)))
    {
      assert (u, j) != (t, i) ==> Get(mem', u, j) == Get(mem, u, j);
    }
    forall f | f in pages
      ensures exists u :: PageIn(a, mem', homes, pages, u, f)
    {
      var u :| PageIn(a, mem, homes, pages, u, f);
      assert PageIn(a, mem', homes, pages, u, f);
    }
  }

  /** The rights a leaf gives are those of its address. */
  lemma LeafRights(a: Arch, mem: Memory, root: Word, homes: Homes, va: Word, t: Word, f: Word, write: bool, execute: bool)
    requires a.levels > 0 && Tree(a, mem, root, homes) && OpenLinks(a, mem, homes) && UserVa(a, va) && LeadsToLeaf(a, mem, root, va, 0, t)
    requires UserPage(a, mem, root, va, f, write, execute)
    ensures a.present(Get(mem, t, a.index(va, a.levels - 1)))
    ensures a.leafRights(Get(mem, t, a.index(va, a.levels - 1))) == Rights(true, true, write, execute)
  {
    hide Tree, OpenLinks, UserVa, Path;
    RootPlace(a, mem, root, homes, va);
    OpenWalk(a, mem, root, homes, root, va, 0, t, a.levels - 1);
    LeadsWalk(a, mem, root, va, 0, t, a.levels - 1, ALL);
    assert SamePage(a, va, va);
    assert forall r: Rights :: Meet(ALL, r) == r;
  }

  /** Adds rights to the page of `va`, if it is mapped; if frame `f` is its page, with rights `w` and
      `x` beside reading, it goes on being so. */
  method MergePage(u: UserSpace, va: Word, write: bool, execute: bool, ghost f: Word, ghost w: bool, ghost x: bool) returns (found: bool)
    requires u.Valid() && UserVa(u.space.a, va)
    requires Maps(u.space.a, u.pages, va, f) ==> UserPage(u.space.a, u.space.mem, u.space.root, va, f, w, x)
    modifies u.space
    ensures u.Valid() && u.space.frames == old(u.space.frames) && u.space.homes == old(u.space.homes)
    ensures !found ==> unchanged(u.space) && forall g :: !Maps(u.space.a, u.pages, va, g)
    ensures found ==> Translate(u.space.a, old(u.space.mem), u.space.root, va).Some?
    ensures found && Maps(u.space.a, u.pages, va, f) ==> UserPage(u.space.a, u.space.mem, u.space.root, va, f, w || write, x || execute)
    ensures forall vb :: !SamePage(u.space.a, va, vb) ==>
              Translate(u.space.a, u.space.mem, u.space.root, vb) == Translate(u.space.a, old(u.space.mem), u.space.root, vb)
  {
    hide Lawful, Tree, FreshPool, Counted, PagesOk, OpenLinks, RefsOk, GrewAlong, Translate, UserVa, Path, Accounted, LeadsToLeaf,
      UserPage, Took, SamePage, SameTranslations, OnePage, UserPerm;
    HasLevels(u.space.a);
    var pte := u.space.GetPte(va, false);
    if pte.None? || !u.space.a.present(Get(u.space.mem, pte.value.table, pte.value.slot)) {
      SlotOfPage(u.space.a, u.space.mem, u.space.root, u.space.homes, u.pages, va, pte);
      return false;
    }
    var Pte(t, i) := pte.value;
    var e := Get(u.space.mem, t, i);
    var word := u.space.a.makePage(u.space.a.addr(e), MergePerm(u.space.a, e, UserPerm(write, execute)));
    ghost var a, mem0, homes := u.space.a, u.space.mem, u.space.homes;
    LeafTranslates(a, mem0, u.space.root, homes, va, t);
    PageOfLeaf(a, va, mem0, homes, u.pages, t);
    FrameOfPage(a, homes, u.pages, u.space.frames, a.addr(e));
    MergedRights(a, e, UserPerm(write, execute));
    u.space.mem := u.space.mem[(t, i) := word];
    RewritePage(a, va, mem0, homes, u.pages, t, word);
    SameHere(a, mem0, u.space.root, homes);
    StoreKeeps(a, va, mem0, mem0, homes, homes, t, word);
    LeafStore(a, mem0, u.space.mem, u.space.root, homes, va, t);
    if Maps(a, u.pages, va, f) {
      OneFrame(a, mem0, u.space.root, homes, u.pages, va, f, a.addr(e));
      LeafRights(a, mem0, u.space.root, homes, va, t, f, w, x);
      MergedPage(a, mem0, u.space.mem, u.space.root, homes, va, t, f, e, write, execute);
    }
    return true;
  }

  lemma MergedPerm(a: Arch, e: Word, write: bool, execute: bool)
    ensures MergePerm(a, e, UserPerm(write, execute)) == UserPerm(a.leafRights(e).write || write, a.leafRights(e).execute || execute)
  {
    hide UserPerm;
    UserPermRights(write, execute);
  }

  lemma FrameOfPage(a: Arch, homes: Homes, pages: Paths, fr: Frames, f: Word)
    requires RefsOk(a, homes, pages, fr) && f in pages
    ensures a.isFrame(f)
  {
  }

  lemma OneFrame(a: Arch, mem: Memory, root: Word, homes: Homes, pages: Paths, va: Word, f: Word, g: Word)
    requires Tree(a, mem, root, homes) && PagesOk(a, mem, homes, pages) && Maps(a, pages, va, f) && Maps(a, pages, va, g)
    ensures f == g
  {
    PagesInjective(a, mem, root, homes, pages, f, g);
  }

  lemma MergedPage(a: Arch, mem0: Memory, mem: Memory, root: Word, homes: Homes, va: Word, t: Word, f: Word, e: Word, write: bool, execute: bool)
    requires Lawful(a) && a.levels > 0 && Tree(a, mem, root, homes) && OpenLinks(a, mem, homes) && UserVa(a, va) && a.isFrame(f)
    requires LeadsToLeaf(a, mem, root, va, 0, t) && a.addr(e) == f
    requires Get(mem, t, a.index(va, a.levels - 1)) == a.makePage(f, MergePerm(a, e, UserPerm(write, execute)))
    requires forall vb :: !SamePage(a, va, vb) ==> Translate(a, mem, root, vb) == Translate(a, mem0, root, vb)
    ensures UserPage(a, mem, root, va, f, a.leafRights(e).write || write, a.leafRights(e).execute || execute)
  {
    hide Lawful, Tree, OpenLinks, UserVa, Path, SamePage, Translate, LeadsToLeaf, OnePage, UserPage;
    assert SameTranslations(a, mem0, mem0, root);
    MergedPerm(a, e, write, execute);
    PageMapped(a, mem0, mem0, mem, root, homes, va, t, f, MergePerm(a, e, UserPerm(write, execute)));
    var w, x := a.leafRights(e).write || write, a.leafRights(e).execute || execute;
    UserPermRights(w, x);
    MappedUser(a, mem0, mem, root, homes, va, t, f, UserPerm(w, x), w, x);
  }

  // ---- Pages with their bytes ----

  /** `at` gives the addresses of the user pages below `top`, which differ to the page tables. */
  ghost predicate UserAddresses(a: Arch, at: nat -> Word, top: nat) {
    && (forall p :: 0 <= p < top ==> UserVa(a, at(p)))
    && forall p, q :: 0 <= p < top && 0 <= q < top && SamePage(a, at(p), at(q)) ==> p == q
  }

  /** Page `p` is backed by frame `f`, which holds its bytes. */
  ghost predicate PageShown(a: Arch, mem: Memory, root: Word, frames: Paths, content: map<Word, seq<Byte>>, at: nat -> Word,
                            p: nat, page: Page, f: Word)
  {
    && Maps(a, frames, at(p), f) && f in content && content[f] == page.bytes
    && UserPage(a, mem, root, at(p), f, page.write, page.execute)
  }

  /** The user half holds exactly `pages`. */
  ghost predicate Shown(a: Arch, mem: Memory, root: Word, frames: Paths, content: map<Word, seq<Byte>>, at: nat -> Word, top: nat, pages: Pages) {
    && (forall p :: p in pages ==> p < top && exists f :: PageShown(a, mem, root, frames, content, at, p, pages[p], f))
    && forall p: nat {:trigger at(p)} :: p < top && p !in pages ==> Translate(a, mem, root, at(p)).None?
  }

  lemma ShownAt(a: Arch, mem: Memory, root: Word, frames: Paths, content: map<Word, seq<Byte>>, at: nat -> Word, top: nat, pages: Pages, p: nat)
    returns (f: Word)
    requires Shown(a, mem, root, frames, content, at, top, pages) && p in pages
    ensures PageShown(a, mem, root, frames, content, at, p, pages[p], f) && p < top
    ensures Maps(a, frames, at(p), f) && UserPage(a, mem, root, at(p), f, pages[p].write, pages[p].execute) && f in content && content[f] == pages[p].bytes
  {
    hide Maps, UserPage, Translate;
    f :| PageShown(a, mem, root, frames, content, at, p, pages[p], f);
  }

  /** Pages are there if they translate. */
  lemma ShownThere(a: Arch, mem: Memory, root: Word, frames: Paths, content: map<Word, seq<Byte>>, at: nat -> Word, top: nat, pages: Pages, p: nat)
    requires Shown(a, mem, root, frames, content, at, top, pages) && p < top
    ensures p in pages <==> Translate(a, mem, root, at(p)).Some?
  {
    hide Maps, Translate;
    if p in pages {
      var f := ShownAt(a, mem, root, frames, content, at, top, pages, p);
      assert SamePage(a, at(p), at(p));
    }
  }

  /** A page other than `p` is shown as before. */
  lemma OtherShown(a: Arch, mem: Memory, mem': Memory, root: Word, frames: Paths, frames': Paths, content: map<Word, seq<Byte>>,
                   content': map<Word, seq<Byte>>, at: nat -> Word, top: nat, p: nat, q: nat, page: Page, f: Word)
    requires UserAddresses(a, at, top) && p < top && q < top && q != p && PageShown(a, mem, root, frames, content, at, q, page, f)
    requires forall vb :: !SamePage(a, at(p), vb) ==> Translate(a, mem', root, vb) == Translate(a, mem, root, vb)
    requires f in frames' && frames'[f] == frames[f] && f in content' && content'[f] == content[f]
    ensures PageShown(a, mem', root, frames', content', at, q, page, f)
  {
    hide Translate, UserVa;
    assert !SamePage(a, at(p), at(q));
    forall vb | SamePage(a, at(q), vb)
      ensures !SamePage(a, at(p), vb)
    {
    }
  }

  /** One page changes, and of the frames only its own. */
  lemma OneShown(a: Arch, mem: Memory, mem': Memory, root: Word, frames: Paths, frames': Paths, content: map<Word, seq<Byte>>,
                 content': map<Word, seq<Byte>>, at: nat -> Word, top: nat, pages: Pages, p: nat, page: Page, f: Word)
    requires UserAddresses(a, at, top) && p < top && Shown(a, mem, root, frames, content, at, top, pages)
    requires PageShown(a, mem', root, frames', content', at, p, page, f)
    requires forall vb :: !SamePage(a, at(p), vb) ==> Translate(a, mem', root, vb) == Translate(a, mem, root, vb)
    requires forall g :: g in frames && g != f ==> g in frames' && frames'[g] == frames[g]
    requires forall g :: g in content && g != f ==> g in content' && content'[g] == content[g]
    requires f in frames ==> Maps(a, frames, at(p), f)
    ensures Shown(a, mem', root, frames', content', at, top, pages[p := page])
  {
    hide Translate, PageShown, UserVa, Maps;
    forall q | q in pages && q != p
      ensures exists g :: PageShown(a, mem', root, frames', content', at, q, pages[q], g)
    {
      var g := ShownAt(a, mem, root, frames, content, at, top, pages, q);
      OtherFrame(a, frames, at, top, p, q, f, g);
      OtherShown(a, mem, mem', root, frames, frames', content, content', at, top, p, q, pages[q], g);
    }
    forall q: nat | q < top && q != p
      ensures !SamePage(a, at(p), at(q))
    {
    }
  }

  lemma OtherFrame(a: Arch, frames: Paths, at: nat -> Word, top: nat, p: nat, q: nat, f: Word, g: Word)
    requires UserAddresses(a, at, top) && p < top && q < top && q != p && Maps(a, frames, at(q), g)
    requires f in frames ==> Maps(a, frames, at(p), f)
    ensures g != f && g in frames
  {
    hide UserVa;
    assert !SamePage(a, at(p), at(q));
  }

  // ---- Frames for pages ----

  /** The places that the pages of `s` take, with their tables. */
  ghost function Needed(a: Arch, at: nat -> Word, s: set<nat>): set<seq<Index>> {
    set p, l | p in s && 0 < l <= a.levels :: Path(a, at(p), l)
  }

  lemma NeededMore(a: Arch, at: nat -> Word, s: set<nat>, p: nat)
    ensures Needed(a, at, s + {p}) == Needed(a, at, s) + Chain(a, at(p))
  {
    hide Path;
    forall x | x in Needed(a, at, s)
      ensures x in Needed(a, at, s + {p})
    {
      var q, l :| q in s && 0 < l <= a.levels && x == Path(a, at(q), l);
      assert q in s + {p};
    }
    forall x | x in Chain(a, at(p))
      ensures x in Needed(a, at, s + {p})
    {
      var l :| 0 < l <= a.levels && x == Path(a, at(p), l);
      assert p in s + {p};
    }
    forall x | x in Needed(a, at, s + {p})
      ensures x in Needed(a, at, s) + Chain(a, at(p))
    {
      var q, l :| q in s + {p} && 0 < l <= a.levels && x == Path(a, at(q), l);
      assert q in s || q == p;
    }
  }

  /** More pages need no fewer frames. */
  lemma NeededSize(a: Arch, at: nat -> Word, s: set<nat>, t: set<nat>)
    requires s <= t
    ensures |Needed(a, at, s)| <= |Needed(a, at, t)|
  {
    hide Path;
    Subset(Needed(a, at, s), Needed(a, at, t));
  }

  // ---- The image ----

  class UserImage {
    const u: UserSpace
    const at: nat -> Word                   // addresses of the user pages
    const top: nat                          // user pages there can be
    var content: map<Word, seq<Byte>>       // bytes of the frames
    ghost var pages: Pages                  // what user code sees

    ghost predicate Valid()
      reads this, u, u.space
    {
      && u.Valid() && UserAddresses(u.space.a, at, top) && Sized(pages)
      && Shown(u.space.a, u.space.mem, u.space.root, u.pages, content, at, top, pages)
    }

    /** Frames are taken for the pages and the tables above them, and for nothing else. */
    ghost predicate Tight()
      reads this, u, u.space
    {
      Taken(u.space.homes, u.pages) == Needed(u.space.a, at, pages.Keys)
    }

    /** An address space that translates no user page. */
    constructor (u: UserSpace, at: nat -> Word, top: nat)
      requires u.Valid() && UserAddresses(u.space.a, at, top)
      requires forall p: nat {:trigger at(p)} :: p < top ==> Translate(u.space.a, u.space.mem, u.space.root, at(p)).None?
      ensures Valid() && pages == map[] && this.u == u && this.at == at && this.top == top
    {
      this.u, this.at, this.top, content, pages := u, at, top, map[], map[];
    }

    /** Maps page `p`, which must be free, and zeroes it. */
    method MapFresh(p: nat, perm: bv32, ghost write: bool, ghost execute: bool) returns (ok: bool)
      requires Valid() && Tight() && p < top && PermRights(perm) == Rights(true, true, write, execute)
      modifies this, u, u.space
      ensures Valid()
      ensures ok ==> Tight() && p !in old(pages) && pages == old(pages)[p := Page(Zeros(), write, execute)]
      ensures !ok ==> pages == old(pages) && (p in pages || |Needed(u.space.a, at, pages.Keys + {p})| >= |u.all|)
    {
      hide UserSpace.Valid, UserAddresses, Shown, Translate, Zeros, OnePage, SamePage, Taken, Needed, Chain, PermRights,
        SameTranslations, Path, UserVa;
      ghost var a, mem0, frames0, homes0, content0 := u.space.a, u.space.mem, u.pages, u.space.homes, content;
      UserPageVa(a, at, top, p);
      ShownThere(a, mem0, u.space.root, frames0, content, at, top, pages, p);
      NeededMore(a, at, pages.Keys, p);
      var r := u.AllocAndMapPage(at(p), perm);
      if r.None? {
        SameShown(a, mem0, u.space.mem, u.space.root, frames0, content, at, top, pages);
        if p !in pages {
          Subset(Taken(u.space.homes, u.pages) + Chain(a, at(p)), Needed(a, at, pages.Keys + {p}));
        }
        return false;
      }
      content := content[r.value := Zeros()];
      FreshShown(u, mem0, frames0, content0, content, at, top, pages, p, r.value, perm, write, execute);
      TightStep(u, at, top, p, r.value);
      assert Taken(u.space.homes, u.pages) == Needed(a, at, pages.Keys + {p});
      pages := pages[p := Page(Zeros(), write, execute)];
      assert pages.Keys == old(pages).Keys + {p};
      return true;
    }

    /** Makes page `p` user memory with these rights: a mapped page keeps its bytes and what it allowed
        already, a new one is zero. */
    method MapPage(p: nat, write: bool, execute: bool) returns (ok: bool)
      requires Valid() && Tight() && p < top
      modifies this, u, u.space
      ensures Valid()
      ensures ok ==> Tight() && pages == old(pages)[p := if p in old(pages) then Widened(old(pages)[p], write, execute) else Page(Zeros(), write, execute)]
      ensures !ok ==> pages == old(pages) && p !in pages && |Needed(u.space.a, at, pages.Keys + {p})| >= |u.all|
    {
      hide UserSpace.Valid, UserAddresses, Shown, Translate, Zeros, OnePage, SamePage, Taken, Needed, PermRights, SameTranslations, Path, UserVa,
        UserPage, UserPerm, Maps, PageShown;
      ghost var a, mem0 := u.space.a, u.space.mem;
      ghost var f, w, x := Word(0), false, false;
      if p in pages {
        f := ShownAt(a, mem0, u.space.root, u.pages, content, at, top, pages, p);
        w, x := pages[p].write, pages[p].execute;
      } else {
        NotMapped(u, content, at, top, pages, p, f);
      }
      UserPageVa(a, at, top, p);
      ShownThere(a, mem0, u.space.root, u.pages, content, at, top, pages, p);
      var found := MergePage(u, at(p), write, execute, f, w, x);
      if found {
        WidenedShown(a, mem0, u.space.mem, u.space.root, u.pages, content, at, top, pages, p, write, execute, f);
        pages := pages[p := Widened(pages[p], write, execute)];
        assert pages.Keys == old(pages).Keys;
        return true;
      }
      UserPermRights(write, execute);
      ok := MapFresh(p, UserPerm(write, execute), write, execute);
    }

    /** Copies bytes into the frame behind page `p`. */
    method PutBytes(p: nat, off: nat, part: seq<Byte>)
      requires Valid() && p in pages && off + |part| <= 4096
      modifies this, u.space
      ensures Valid() && unchanged(u.space)
      ensures |old(pages)[p].bytes| == 4096 && pages == old(pages)[p := old(pages)[p].(bytes := Spliced(old(pages)[p].bytes, off, part))]
    {
      hide UserAddresses, Shown, Translate, SamePage, Path, UserVa, UserPage, Maps, Spliced, Lawful, Tree, FreshPool, Counted,
        PagesOk, OpenLinks, RefsOk,
        Accounted, LeadsToLeaf, GrewAlong, SameTranslations, Took;
      ghost var a, content0 := u.space.a, content;
      HasLevels(a);
      ghost var f := ShownAt(a, u.space.mem, u.space.root, u.pages, content, at, top, pages, p);
      UserPageVa(a, at, top, p);
      ghost var t := PageSlot(a, u.space.mem, u.space.root, u.space.homes, u.pages, at(p), f);
      var pte := u.space.GetPte(at(p), false);
      assert pte.Some?;
      SamePlaceSame(a, u.space.mem, u.space.root, u.space.homes, t, pte.value.table);
      var e := Get(u.space.mem, pte.value.table, pte.value.slot);
      assert u.space.a.present(e);
      PageOfLeaf(a, at(p), u.space.mem, u.space.homes, u.pages, t);
      MapsBoth(a, u.pages, at(p), u.space.a.addr(e));
      OneFrame(a, u.space.mem, u.space.root, u.space.homes, u.pages, at(p), f, u.space.a.addr(e));
      content := content[u.space.a.addr(e) := Spliced(content[u.space.a.addr(e)], off, part)];
      ghost var page := pages[p].(bytes := Spliced(pages[p].bytes, off, part));
      assert PageShown(a, u.space.mem, u.space.root, u.pages, content, at, p, page, f);
      OneShown(a, u.space.mem, u.space.mem, u.space.root, u.pages, u.pages, content0, content, at, top, pages, p, page, f);
      pages := pages[p := page];
    }
  }

  lemma MapsBoth(a: Arch, pages: Paths, va: Word, f: Word)
    requires f in pages && pages[f] == Path(a, va, a.levels)
    ensures Maps(a, pages, va, f)
  {
  }

  /** A page that is not shown has no frame. */
  lemma NotMapped(u: UserSpace, content: map<Word, seq<Byte>>, at: nat -> Word, top: nat, pages: Pages, p: nat, f: Word)
    requires u.Valid() && Shown(u.space.a, u.space.mem, u.space.root, u.pages, content, at, top, pages) && p < top && p !in pages
    ensures !Maps(u.space.a, u.pages, at(p), f)
  {
    hide Shown, Translate, Maps, Lawful, Tree, FreshPool, Counted, PagesOk, OpenLinks, RefsOk, Accounted;
    ShownThere(u.space.a, u.space.mem, u.space.root, u.pages, content, at, top, pages, p);
    if Maps(u.space.a, u.pages, at(p), f) {
      FrameShows(u.space.a, u.space.mem, u.space.root, u.space.homes, u.pages, at(p), f);
    }
  }

  lemma WidenedShown(a: Arch, mem: Memory, mem': Memory, root: Word, frames: Paths, content: map<Word, seq<Byte>>, at: nat -> Word, top: nat,
                     pages: Pages, p: nat, write: bool, execute: bool, f: Word)
    requires UserAddresses(a, at, top) && Shown(a, mem, root, frames, content, at, top, pages) && p in pages && p < top
    requires PageShown(a, mem, root, frames, content, at, p, pages[p], f)
    requires UserPage(a, mem', root, at(p), f, pages[p].write || write, pages[p].execute || execute)
    requires forall vb :: !SamePage(a, at(p), vb) ==> Translate(a, mem', root, vb) == Translate(a, mem, root, vb)
    ensures Shown(a, mem', root, frames, content, at, top, pages[p := Widened(pages[p], write, execute)])
  {
    hide UserAddresses, Shown, Translate, SamePage, Maps, UserPage;
    OneShown(a, mem, mem', root, frames, frames, content, content, at, top, pages, p, Widened(pages[p], write, execute), f);
  }

  lemma UserPageVa(a: Arch, at: nat -> Word, top: nat, p: nat)
    requires UserAddresses(a, at, top) && p < top
    ensures UserVa(a, at(p))
  {
  }

  lemma SameShown(a: Arch, mem: Memory, mem': Memory, root: Word, frames: Paths, content: map<Word, seq<Byte>>, at: nat -> Word, top: nat, pages: Pages)
    requires Shown(a, mem, root, frames, content, at, top, pages) && SameTranslations(a, mem, mem', root)
    ensures Shown(a, mem', root, frames, content, at, top, pages)
  {
    hide Translate, Maps;
    forall p | p in pages
      ensures exists f :: PageShown(a, mem', root, frames, content, at, p, pages[p], f)
    {
      var f := ShownAt(a, mem, root, frames, content, at, top, pages, p);
      assert PageShown(a, mem', root, frames, content, at, p, pages[p], f);
    }
  }

  lemma FreshShown(u: UserSpace, mem: Memory, frames: Paths, content: map<Word, seq<Byte>>, content': map<Word, seq<Byte>>, at: nat -> Word,
                   top: nat, pages: Pages, p: nat, f: Word, perm: bv32, write: bool, execute: bool)
    requires u.Valid() && UserAddresses(u.space.a, at, top) && p < top
    requires Shown(u.space.a, mem, u.space.root, frames, content, at, top, pages)
    requires PermRights(perm) == Rights(true, true, write, execute) && OnePage(u.space.a, mem, u.space.mem, u.space.root, at(p), f, perm)
    requires u.pages == frames[f := Path(u.space.a, at(p), u.space.a.levels)] && f !in frames && content' == content[f := Zeros()]
    ensures Shown(u.space.a, u.space.mem, u.space.root, u.pages, content', at, top, pages[p := Page(Zeros(), write, execute)])
  {
    hide UserAddresses, Shown, Translate, Zeros, SamePage, PermRights, Path, UserVa, Lawful, Tree, FreshPool, Counted, PagesOk, OpenLinks, RefsOk,
      Accounted, LeadsToLeaf, UserPage;
    var a := u.space.a;
    UserPageVa(a, at, top, p);
    var t := PageSlot(a, u.space.mem, u.space.root, u.space.homes, u.pages, at(p), f);
    MappedUser(a, mem, u.space.mem, u.space.root, u.space.homes, at(p), t, f, perm, write, execute);
    assert PageShown(a, u.space.mem, u.space.root, u.pages, content', at, p, Page(Zeros(), write, execute), f);
    OneShown(a, mem, u.space.mem, u.space.root, frames, u.pages, content, content', at, top, pages, p, Page(Zeros(), write, execute), f);
  }

  lemma TightStep(u: UserSpace, at: nat -> Word, top: nat, p: nat, f: Word)
    requires u.Valid() && UserAddresses(u.space.a, at, top) && p < top && Maps(u.space.a, u.pages, at(p), f)
    ensures Chain(u.space.a, at(p)) <= Taken(u.space.homes, u.pages)
  {
    hide UserAddresses, Path, Lawful, Tree, FreshPool, Counted, PagesOk, OpenLinks, RefsOk, Accounted, Chain, Taken;
    UserPageVa(u.space.a, at, top, p);
    ChainTaken(u.space.a, u.space.mem, u.space.root, u.space.homes, u.pages, at(p), f);
  }
}
