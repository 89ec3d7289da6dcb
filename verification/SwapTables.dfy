/** Swapping on the page tables: the search for the page of a frame, and the swap space whose entries
    are the words of one address space's tables. */
module SwapTables {
  import opened Errors
  import opened PageTables
  import opened PageTrees
  import opened AddressSpaces
  import opened UserFrames
  import opened UserSpaces
  import opened SwapEntries
  import Sequences
  import S = Swap
  import I = UserImages

  // ---- The search ----

  /** The page number a path of indices leads to. */
  function Number(path: seq<Index>): nat {
    if path == [] then 0 else 512 * Number(path[..|path| - 1]) + path[|path| - 1] as nat
  }

  lemma NumberNext(path: seq<Index>, i: Index)
    ensures Number(path + [i]) == 512 * Number(path) + i as nat
  {
    assert (path + [i])[..|path|] == path;
  }

  lemma {:induction false} NumberTells(p: seq<Index>, q: seq<Index>)
    requires |p| == |q| && Number(p) == Number(q)
    ensures p == q
  {
    if p != [] {
      var n := |p| - 1;
      NumberTells(p[..n], q[..n]);
      assert p == p[..n] + [p[n]] && q == q[..n] + [q[n]];
    }
  }

  /** What a slot holds if a page is below it. */
  lemma SlotHolds(a: Arch, mem: Memory, root: Word, homes: Homes, pages: Paths, t: Word, l: nat, i: Index, f: Word)
    requires Tree(a, mem, root, homes) && PagesOk(a, mem, homes, pages) && t in homes && homes[t].level == l < a.levels
    requires f in pages && Below(pages, f, homes[t].path + [i])
    ensures a.present(Get(mem, t, i))
    ensures l + 1 == a.levels ==> a.addr(Get(mem, t, i)) == f
    ensures l + 1 < a.levels ==> !a.isBlock(Get(mem, t, i))
  {
    hide Tree, PagesOk, FrameTree, UserPath, Hung;
    var paths, path := PathsOf(homes, pages), homes[t].path + [i];
    PathLength(a, mem, root, homes, t);
    PagesApart(a, mem, homes, pages);
    TreeOfFrames(a, mem, root, homes, pages);
    UserBelow(a, mem, homes, pages, f, path);
    var u := Ancestor(a, mem, paths, f, l + 1);
    ChildAt(a, mem, paths, t, i, u);
    if l + 1 == a.levels {
      assert paths[u] == pages[f];
      PathsInjective(a, mem, root, homes, pages, u, f);
    }
  }

  lemma UserBelow(a: Arch, mem: Memory, homes: Homes, pages: Paths, f: Word, path: seq<Index>)
    requires PagesOk(a, mem, homes, pages) && f in pages && Below(pages, f, path) && |path| > 0
    ensures UserPath(pages[f]) && UserPath(path) && |pages[f]| == a.levels
  {
  }

  /** The page of frame `f` at or below slot `i` on, if it is not page 0. */
  ghost predicate Findable(pages: Paths, f: Word, path: seq<Index>, k: nat) {
    f in pages && BelowSome(pages, f, path, k) && Number(pages[f]) != 0
  }

  lemma NoneYet(pages: Paths, f: Word, path: seq<Index>)
    ensures !Findable(pages, f, path, 0)
  {
  }

  lemma OneMore(pages: Paths, f: Word, path: seq<Index>, i: Index)
    ensures Findable(pages, f, path, i as int + 1) <==> Findable(pages, f, path, i as int) || (Below(pages, f, path + [i]) && Number(pages[f]) != 0)
  {
    hide Number;
    BelowSlot(pages, f, path, i as int);
  }

  /** A present leaf slot of the user half holds a page. */
  lemma LeafFound(u: UserSpace, t: Word, i: Index)
    requires u.Valid() && t in u.space.homes && u.space.homes[t].level + 1 == u.space.a.levels
    requires UserPath(u.space.homes[t].path + [i]) && u.space.a.present(Get(u.space.mem, t, i))
    ensures var f := u.space.a.addr(Get(u.space.mem, t, i)); f in u.pages && u.pages[f] == u.space.homes[t].path + [i]
  {
    hide Lawful, Tree, FreshPool, Counted, OpenLinks, RefsOk, Accounted, UserPath;
  }

  lemma ChildTable(u: UserSpace, t: Word, i: Index)
    requires u.Valid() && t in u.space.homes && u.space.homes[t].level + 1 < u.space.a.levels && IsTable(u.space.a, Get(u.space.mem, t, i))
    ensures var c := u.space.a.addr(Get(u.space.mem, t, i));
      c in u.space.homes && u.space.homes[c] == Place(u.space.homes[t].level + 1, u.space.homes[t].path + [i])
  {
    hide Lawful, FreshPool, Counted, OpenLinks, RefsOk, Accounted, UserPath, PagesOk;
  }

  /** What is below a slot is below the slots of its table. */
  lemma AllBelow(u: UserSpace, f: Word, t: Word, i: Index)
    requires u.Valid() && t in u.space.homes && u.space.homes[t].level + 1 < u.space.a.levels
    ensures var path := u.space.homes[t].path + [i]; Below(u.pages, f, path) ==> BelowSome(u.pages, f, path, 512)
  {
    hide Lawful, Tree, FreshPool, Counted, OpenLinks, RefsOk, Accounted, UserPath, PagesOk;
    PathLength(u.space.a, u.space.mem, u.space.root, u.space.homes, t);
    PagesApart(u.space.a, u.space.mem, u.space.homes, u.pages);
  }

  lemma UserSlot(u: UserSpace, t: Word, l: nat, i: Index)
    requires u.Valid() && t in u.space.homes && u.space.homes[t].level == l && (if l > 0 then UserPath(u.space.homes[t].path) else i < 256)
    ensures UserPath(u.space.homes[t].path + [i])
  {
    hide Lawful, Tree, FreshPool, Counted, OpenLinks, RefsOk, Accounted, PagesOk;
    PathLength(u.space.a, u.space.mem, u.space.root, u.space.homes, t);
  }

  /** Looks for the page of frame `f` below table `t`, which `base` leads to; 0 if there is none. */
  method Scan(u: UserSpace, t: Word, l: nat, base: nat, f: Word) returns (page: nat)
    requires u.Valid() && l < u.space.a.levels && t in u.space.homes && u.space.homes[t].level == l && base == Number(u.space.homes[t].path)
    requires l > 0 ==> UserPath(u.space.homes[t].path)
    ensures page != 0 ==> f in u.pages && Number(u.pages[f]) == page
    ensures page == 0 ==> !Findable(u.pages, f, u.space.homes[t].path, if l == 0 then 256 else 512)
    decreases u.space.a.levels - l
  {
    hide Lawful, Tree, FreshPool, Counted, PagesOk, OpenLinks, RefsOk, Accounted, Number, BelowSome, Below, UserPath;
    ghost var path := u.space.homes[t].path;
    var entries := if l == 0 then 256 else 512;
    NoneYet(u.pages, f, path);
    for k := 0 to entries
      invariant !Findable(u.pages, f, path, k)
    {
      var i := k as Index;
      var e := Get(u.space.mem, t, i);
      NumberNext(path, i);
      OneMore(u.pages, f, path, i);
      UserSlot(u, t, l, i);
      if Findable(u.pages, f, path, k + 1) {
        SlotHolds(u.space.a, u.space.mem, u.space.root, u.space.homes, u.pages, t, l, i, f);
      }
      if u.space.a.present(e) {
        if l == u.space.a.levels - 1 {
          if u.space.a.addr(e) == f {
            LeafFound(u, t, i);
            return 512 * base + k;
          }
        } else if !u.space.a.isBlock(e) {
          ChildTable(u, t, i);
          AllBelow(u, f, t, i);
          page := Scan(u, u.space.a.addr(e), l + 1, 512 * base + k, f);
          if page != 0 {
            return;
          }
        }
      }
    }
    return 0;
  }

  /** Finds the page of frame `f`, unless that is page 0. */
  method FindPage(u: UserSpace, f: Word) returns (page: nat)
    requires u.Valid()
    ensures page != 0 <==> f in u.pages && Number(u.pages[f]) != 0
    ensures page != 0 ==> Number(u.pages[f]) == page
  {
    hide Lawful, Tree, FreshPool, Counted, PagesOk, OpenLinks, RefsOk, Accounted, Number;
    HasLevels(u.space.a);
    RootPath(u.space.a, u.space.mem, u.space.root, u.space.homes);
    NumberNone();
    page := Scan(u, u.space.root, 0, 0, f);
    UserHalf(u, f);
  }

  lemma NumberNone()
    ensures Number([]) == 0
  {
  }

  lemma UserHalf(u: UserSpace, f: Word)
    requires u.Valid()
    ensures f in u.pages ==> BelowSome(u.pages, f, [], 256)
  {
    hide Lawful, Tree, FreshPool, Counted, OpenLinks, RefsOk, Accounted;
  }

  // ---- The tables and the swap space ----

  /** `at` gives the addresses of the user pages, of which there are `top`, by their numbers. */
  ghost predicate Numbered(a: Arch, at: nat -> Word, top: nat) {
    && (forall p :: 0 <= p < top ==> UserVa(a, at(p)) && Number(Path(a, at(p), a.levels)) == p)
    && forall path :: |path| == a.levels && UserPath(path) ==> Number(path) < top
  }

  lemma NumbersDiffer(a: Arch, at: nat -> Word, top: nat, p: nat, q: nat)
    requires Numbered(a, at, top) && p < top && q < top && p != q
    ensures !SamePage(a, at(p), at(q)) && UserVa(a, at(p))
  {
    hide Path, UserVa, Number;
  }

  /** Swap entries are no mappings. */
  ghost predicate Distinguished(a: Arch) {
    forall e :: Formed(e) ==> !a.present(e) && e != ZERO
  }

  /** User page `va` is as `pte` says: mapped to its frame with its rights, replaced by its swap entry,
      or neither. */
  ghost predicate Shows(a: Arch, mem: Memory, root: Word, homes: Homes, pages: Paths, va: Word, pte: S.Pte) {
    match pte
    case Resident(f, user, write, execute) =>
      && Maps(a, pages, va, f)
      && forall vb :: SamePage(a, va, vb) ==>
           var r := Translate(a, mem, root, vb); r.Some? && r.value.pa == InFrame(f, vb) && r.value.rights == Rights(user, true, write, execute)
    case Swapped(e) => Translate(a, mem, root, va).None? && exists t :: EntryAt(a, va, mem, homes, t, e)
    case Empty => Translate(a, mem, root, va).None? && forall t, e :: !EntryAt(a, va, mem, homes, t, e)
  }

  /** A page is shown as before if its translations, its entry and its frame are. */
  lemma StillShows(a: Arch, mem: Memory, mem': Memory, root: Word, homes: Homes, homes': Homes, pages: Paths, pages': Paths, va: Word, vb: Word, pte: S.Pte)
    requires Shows(a, mem, root, homes, pages, vb, pte) && !SamePage(a, va, vb)
    requires forall vc :: !SamePage(a, va, vc) ==> Translate(a, mem', root, vc) == Translate(a, mem, root, vc)
    requires OtherEntries(a, va, mem, mem', homes, homes')
    requires forall f :: f in pages && !Maps(a, pages, va, f) ==> f in pages' && pages'[f] == pages[f]
    ensures Shows(a, mem', root, homes', pages', vb, pte)
  {
    hide Translate, EntryAt;
    forall vc | SamePage(a, vb, vc)
      ensures !SamePage(a, va, vc)
    {
    }
    if pte.Swapped? {
      var t :| EntryAt(a, vb, mem, homes, t, pte.entry);
      assert EntryAt(a, vb, mem', homes', t, pte.entry);
    }
  }

  /** What the swap space thinks of page `p` of `mm` is what the tables say. */
  ghost predicate PageAgrees(a: Arch, mem: Memory, root: Word, homes: Homes, pages: Paths, at: nat -> Word, top: nat, ptes: S.Ptes, mm: nat, p: nat) {
    var pte := S.At(ptes, S.Key(mm, p));
    if p < top then Shows(a, mem, root, homes, pages, at(p), pte) else pte.Empty?
  }

  ghost predicate Agree(a: Arch, mem: Memory, root: Word, homes: Homes, pages: Paths, at: nat -> Word, top: nat, ptes: S.Ptes, mm: nat) {
    forall p: nat :: PageAgrees(a, mem, root, homes, pages, at, top, ptes, mm, p)
  }

  /** Page `p` changed, as the swap space says; the others did not. */
  lemma AgreeNext(a: Arch, mem: Memory, mem': Memory, root: Word, homes: Homes, homes': Homes, pages: Paths, pages': Paths, at: nat -> Word, top: nat,
                  ptes: S.Ptes, mm: nat, p: nat, pte: S.Pte)
    requires Numbered(a, at, top) && p < top && Agree(a, mem, root, homes, pages, at, top, ptes, mm)
    requires Shows(a, mem', root, homes', pages', at(p), pte)
    requires forall vb :: !SamePage(a, at(p), vb) ==> Translate(a, mem', root, vb) == Translate(a, mem, root, vb)
    requires OtherEntries(a, at(p), mem, mem', homes, homes')
    requires forall f :: f in pages && !Maps(a, pages, at(p), f) ==> f in pages' && pages'[f] == pages[f]
    ensures Agree(a, mem', root, homes', pages', at, top, ptes[S.Key(mm, p) := pte], mm)
  {
    hide Numbered, Shows, SamePage, Translate, OtherEntries, Maps;
    var ptes' := ptes[S.Key(mm, p) := pte];
    forall q: nat
      ensures PageAgrees(a, mem', root, homes', pages', at, top, ptes', mm, q)
    {
      assert PageAgrees(a, mem, root, homes, pages, at, top, ptes, mm, q);
      if q != p && q < top {
        NumbersDiffer(a, at, top, p, q);
        StillShows(a, mem, mem', root, homes, homes', pages, pages', at(p), at(q), S.At(ptes, S.Key(mm, q)));
      }
    }
  }

  /** A resident page of the swap space is the page of its frame in the tables. */
  lemma ResidentFound(a: Arch, mem: Memory, root: Word, homes: Homes, pages: Paths, at: nat -> Word, top: nat, ptes: S.Ptes, mm: nat, p: nat)
    requires Numbered(a, at, top) && Agree(a, mem, root, homes, pages, at, top, ptes, mm) && S.At(ptes, S.Key(mm, p)).Resident?
    ensures p < top && UserVa(a, at(p)) && Maps(a, pages, at(p), S.At(ptes, S.Key(mm, p)).frame)
    ensures Number(pages[S.At(ptes, S.Key(mm, p)).frame]) == p
  {
    hide Number, Path, UserVa, Translate;
    assert PageAgrees(a, mem, root, homes, pages, at, top, ptes, mm, p);
  }

  lemma EntryFormed(slot: nat, write: bool, execute: bool, a: Arch)
    requires slot < MAX_SLOTS && Distinguished(a)
    ensures !a.present(Entry(slot, write, execute)) && Entry(slot, write, execute) != ZERO
  {
    hide Entry, Formed;
    EntryRoundTrip(slot, write, execute);
  }

  lemma OnlyFrame(u: UserSpace, va: Word, f: Word)
    requires u.Valid() && Maps(u.space.a, u.pages, va, f)
    ensures forall g :: Maps(u.space.a, u.pages, va, g) ==> g == f
  {
    hide Lawful, Tree, FreshPool, Counted, PagesOk, OpenLinks, RefsOk, Accounted, Maps;
    forall g | Maps(u.space.a, u.pages, va, g)
      ensures g == f
    {
      I.OneFrame(u.space.a, u.space.mem, u.space.root, u.space.homes, u.pages, va, f, g);
    }
  }

  /** Under a root whose lower half is empty there is no swap entry. */
  lemma NoEntries(u: UserSpace, va: Word, t: Word, e: Word)
    requires u.Valid() && UserVa(u.space.a, va) && forall i: Index :: i < 256 ==> Get(u.space.mem, u.space.root, i) == ZERO
    ensures !EntryAt(u.space.a, va, u.space.mem, u.space.homes, t, e)
  {
    hide Lawful, Tree, FreshPool, Counted, PagesOk, OpenLinks, RefsOk, Accounted, Path;
    ZeroAbsent(u.space.a);
    if EntryAt(u.space.a, va, u.space.mem, u.space.homes, t, e) {
      HomeLeads(u.space.a, u.space.mem, u.space.root, u.space.homes, va, t);
      assert false;
    }
  }

  lemma EmptyAgrees(u: UserSpace, at: nat -> Word, top: nat, ptes: S.Ptes, mm: nat)
    requires u.Valid() && Numbered(u.space.a, at, top) && forall i: Index :: i < 256 ==> Get(u.space.mem, u.space.root, i) == ZERO
    requires forall k :: k in ptes ==> k.mm != mm
    ensures Agree(u.space.a, u.space.mem, u.space.root, u.space.homes, u.pages, at, top, ptes, mm)
  {
    hide Lawful, Tree, FreshPool, Counted, PagesOk, OpenLinks, RefsOk, Accounted, Number, EntryAt, UserVa, Translate;
    forall p: nat
      ensures PageAgrees(u.space.a, u.space.mem, u.space.root, u.space.homes, u.pages, at, top, ptes, mm, p)
    {
      if p < top {
        EmptyHalf(u.space.a, u.space.mem, u.space.root, at(p));
        forall t, e
          ensures !EntryAt(u.space.a, at(p), u.space.mem, u.space.homes, t, e)
        {
          NoEntries(u, at(p), t, e);
        }
      }
    }
  }

  lemma EntryThere(a: Arch, mem: Memory, root: Word, homes: Homes, pages: Paths, at: nat -> Word, top: nat, ptes: S.Ptes, mm: nat, p: nat)
    requires Numbered(a, at, top) && p < top && Agree(a, mem, root, homes, pages, at, top, ptes, mm) && S.At(ptes, S.Key(mm, p)).Swapped?
    ensures UserVa(a, at(p)) && exists t, e :: EntryAt(a, at(p), mem, homes, t, e)
  {
    hide Number, UserVa, Translate, EntryAt;
    assert PageAgrees(a, mem, root, homes, pages, at, top, ptes, mm, p);
  }

  lemma SameAddresses(a: Arch, mem: Memory, root: Word)
    ensures SameTranslations(a, mem, mem, root)
  {
  }

  /** A page that came back is mapped with the rights that were asked for. */
  lemma BackShows(u: UserSpace, mem: Memory, va: Word, f: Word, write: bool, execute: bool)
    requires u.Valid() && UserVa(u.space.a, va) && Maps(u.space.a, u.pages, va, f)
    requires OnePage(u.space.a, mem, u.space.mem, u.space.root, va, f, UserPerm(write, execute))
    ensures Shows(u.space.a, u.space.mem, u.space.root, u.space.homes, u.pages, va, S.Resident(f, true, write, execute))
  {
    hide Translate, SamePage, Path, UserVa, Lawful, Tree, FreshPool, Counted, PagesOk, OpenLinks, RefsOk, Accounted, LeadsToLeaf,
      OnePage, UserPerm, Maps;
    var t := PageSlot(u.space.a, u.space.mem, u.space.root, u.space.homes, u.pages, va, f);
    UserPermRights(write, execute);
    I.MappedUser(u.space.a, mem, u.space.mem, u.space.root, u.space.homes, va, t, f, UserPerm(write, execute), write, execute);
  }

  /** The order of the free frames is of no account. */
  lemma SamePool(u: UserSpace, pool: seq<Word>)
    requires u.Valid() && multiset(pool) == multiset(u.space.frames.pool)
    ensures var fr := u.space.frames.(pool := pool);
      && FreshPool(u.space.a, pool, u.space.homes) && Counted(u.space.a, fr, u.space.homes)
      && RefsOk(u.space.a, u.space.homes, u.pages, fr) && Accounted(u.all, u.space.root, u.space.homes, u.pages, pool)
  {
    hide Lawful, Tree, PagesOk, OpenLinks, UserTables;
    var fr := u.space.frames.(pool := pool);
    assert forall f :: fr.Ref(f) == u.space.frames.Ref(f);
    forall f
      ensures f in pool <==> f in u.space.frames.pool
    {
      assert f in pool <==> f in multiset(pool);
      assert f in u.space.frames.pool <==> f in multiset(u.space.frames.pool);
    }
    Apart(u.all, u.space.root, u.space.homes, u.pages, pool);
  }

  /** A frame that was taken and given back is the last to be taken again. */
  method SetPool(u: UserSpace, pool: seq<Word>)
    requires u.Valid() && multiset(pool) == multiset(u.space.frames.pool)
    modifies u.space`frames
    ensures u.Valid() && u.space.frames == old(u.space.frames).(pool := pool)
  {
    hide Lawful, Tree, FreshPool, Counted, PagesOk, OpenLinks, RefsOk, Accounted;
    SamePool(u, pool);
    u.space.frames := u.space.frames.(pool := pool);
  }

  /** Maps the first free frame where there is a swap entry. */
  method MapBack(u: UserSpace, va: Word, write: bool, execute: bool, ghost f: Word, ghost rest: seq<Word>)
    requires u.Valid() && UserVa(u.space.a, va) && u.space.frames.pool == [f] + rest
    requires exists t, e :: EntryAt(u.space.a, va, u.space.mem, u.space.homes, t, e)
    modifies u, u.space
    ensures u.Valid() && u.space.frames.pool == rest && f !in old(u.pages) && u.pages.Keys == old(u.pages).Keys + {f}
    ensures forall g :: g in old(u.pages) ==> u.pages[g] == old(u.pages)[g]
    ensures Shows(u.space.a, u.space.mem, u.space.root, u.space.homes, u.pages, va, S.Resident(f, true, write, execute))
    ensures OtherEntries(u.space.a, va, old(u.space.mem), u.space.mem, old(u.space.homes), u.space.homes)
    ensures forall vb :: !SamePage(u.space.a, va, vb) ==>
              Translate(u.space.a, u.space.mem, u.space.root, vb) == Translate(u.space.a, old(u.space.mem), u.space.root, vb)
  {
    hide UserSpace.Valid, Shows, Translate, SamePage, OtherEntries, EntryAt, Path, UserVa, UserPerm;
    ghost var mem0 := u.space.mem;
    assert u.space.frames.pool[0] == f && u.space.frames.pool[1..] == rest;
    var r := u.SwapInPage(va, UserPerm(write, execute));
    assert r.Some?;
    assert ([r.value] + u.space.frames.pool)[0] == f && ([r.value] + u.space.frames.pool)[1..] == u.space.frames.pool;
    assert Maps(u.space.a, u.pages, va, f);
    BackShows(u, mem0, va, f, write, execute);
  }

  /** The frames of the address space have one owner if they are pages, and none for the swap space if not. */
  ghost predicate RefsAgree(all: set<Word>, pages: set<Word>, refs: map<Word, nat>) {
    (forall f :: f in pages ==> S.Ref(refs, f) == 1) && forall f :: f in all && f !in pages ==> S.Ref(refs, f) == 0
  }

  lemma RefsOut(all: set<Word>, pages: set<Word>, refs: map<Word, nat>, f: Word)
    requires RefsAgree(all, pages, refs)
    ensures RefsAgree(all, pages - {f}, refs[f := 0])
  {
  }

  lemma RefsIn(all: set<Word>, pages: set<Word>, refs: map<Word, nat>, f: Word)
    requires RefsAgree(all, pages, refs)
    ensures RefsAgree(all, pages + {f}, refs[f := 1])
  {
  }

  /** Maps a free frame for user code. */
  method MapFresh(u: UserSpace, va: Word, write: bool, execute: bool) returns (r: Option<Word>)
    requires u.Valid() && UserVa(u.space.a, va)
    modifies u, u.space
    ensures u.Valid() && Sequences.NoRepeat(u.space.frames.pool) && Fewer(old(u.space.frames.pool), u.space.frames.pool)
    ensures r.None? ==> u.pages == old(u.pages) && SameTranslations(u.space.a, old(u.space.mem), u.space.mem, u.space.root)
    ensures r.None? ==> SameEntries(u.space.a, old(u.space.mem), u.space.mem, old(u.space.homes), u.space.homes)
    ensures r.None? ==> Translate(u.space.a, old(u.space.mem), u.space.root, va).Some? || |old(u.space.frames.pool)| <= u.space.a.levels
    ensures r.Some? ==> Translate(u.space.a, old(u.space.mem), u.space.root, va).None?
    ensures r.Some? ==> r.value in old(u.space.frames.pool) && r.value !in u.space.frames.pool && r.value !in old(u.pages)
    ensures r.Some? ==> u.pages.Keys == old(u.pages).Keys + {r.value} && forall g :: g in old(u.pages) ==> u.pages[g] == old(u.pages)[g]
    ensures r.Some? ==> Shows(u.space.a, u.space.mem, u.space.root, u.space.homes, u.pages, va, S.Resident(r.value, true, write, execute))
    ensures r.Some? ==> OtherEntries(u.space.a, va, old(u.space.mem), u.space.mem, old(u.space.homes), u.space.homes)
    ensures r.Some? ==> forall vb :: !SamePage(u.space.a, va, vb) ==>
              Translate(u.space.a, u.space.mem, u.space.root, vb) == Translate(u.space.a, old(u.space.mem), u.space.root, vb)
  {
    hide UserSpace.Valid, Shows, Translate, SamePage, OtherEntries, EntryAt, Path, UserVa, UserPerm, SameEntries, SameTranslations, Fewer,
      Sequences.NoRepeat;
    ghost var mem0 := u.space.mem;
    r := u.AllocAndMapPage(va, UserPerm(write, execute));
    PoolDistinct(u);
    if r.Some? {
      assert Maps(u.space.a, u.pages, va, r.value);
      BackShows(u, mem0, va, r.value, write, execute);
    }
  }

  lemma PoolDistinct(u: UserSpace)
    requires u.Valid()
    ensures Sequences.NoRepeat(u.space.frames.pool)
  {
    hide Lawful, Tree, Counted, PagesOk, OpenLinks, RefsOk, Accounted;
  }

  /** Nothing that the swap space sees has changed. */
  lemma AgreeSame(a: Arch, mem: Memory, mem': Memory, root: Word, homes: Homes, homes': Homes, pages: Paths, at: nat -> Word, top: nat, ptes: S.Ptes,
                  mm: nat)
    requires Agree(a, mem, root, homes, pages, at, top, ptes, mm)
    requires SameTranslations(a, mem, mem', root) && SameEntries(a, mem, mem', homes, homes')
    ensures Agree(a, mem', root, homes', pages, at, top, ptes, mm)
  {
    hide Translate, EntryAt, Maps, SamePage;
    forall p: nat
      ensures PageAgrees(a, mem', root, homes', pages, at, top, ptes, mm, p)
    {
      assert PageAgrees(a, mem, root, homes, pages, at, top, ptes, mm, p);
      var pte := S.At(ptes, S.Key(mm, p));
      if p < top && pte.Swapped? {
        var t :| EntryAt(a, at(p), mem, homes, t, pte.entry);
        assert EntryAt(a, at(p), mem', homes', t, pte.entry);
      }
    }
  }

  /** A page translates exactly if it is resident. */
  lemma ResidentTranslates(a: Arch, mem: Memory, root: Word, homes: Homes, pages: Paths, at: nat -> Word, top: nat, ptes: S.Ptes, mm: nat, p: nat)
    requires Agree(a, mem, root, homes, pages, at, top, ptes, mm) && p < top
    ensures Translate(a, mem, root, at(p)).Some? <==> S.At(ptes, S.Key(mm, p)).Resident?
  {
    hide Translate, EntryAt, Maps;
    assert PageAgrees(a, mem, root, homes, pages, at, top, ptes, mm, p);
    assert SamePage(a, at(p), at(p));
  }

  /** The page number of a user leaf slot. */
  lemma SlotPage(u: UserSpace, at: nat -> Word, top: nat, t: Word, i: Index) returns (p: nat)
    requires u.Valid() && Numbered(u.space.a, at, top) && SwapIn(u.space.a, u.space.mem, u.space.homes, t, i)
    ensures p < top && EntryAt(u.space.a, at(p), u.space.mem, u.space.homes, t, Get(u.space.mem, t, i))
  {
    hide Lawful, Tree, FreshPool, Counted, PagesOk, OpenLinks, RefsOk, Accounted, Number, Path, UserPath, UserVa;
    var a, path := u.space.a, u.space.homes[t].path + [i];
    PathLength(a, u.space.mem, u.space.root, u.space.homes, t);
    p := Number(path);
    NumberTells(path, Path(a, at(p), a.levels));
    PathNext(a, at(p), a.levels - 1);
    assert Path(a, at(p), a.levels)[..a.levels - 1] == path[..a.levels - 1] == u.space.homes[t].path;
  }

  /** There is one word in the leaf slot of a page, and it is no mapping if it is a swap entry. */
  lemma OneWord(u: UserSpace, va: Word, t: Word, e: Word)
    requires u.Valid() && EntryAt(u.space.a, va, u.space.mem, u.space.homes, t, e)
    ensures (forall t', e' :: EntryAt(u.space.a, va, u.space.mem, u.space.homes, t', e') ==> e' == e) && forall f :: !Maps(u.space.a, u.pages, va, f)
  {
    hide Lawful, Tree, FreshPool, Counted, PagesOk, OpenLinks, RefsOk, Accounted, Path, UserPath, LeadsToLeaf;
    forall t', e' | EntryAt(u.space.a, va, u.space.mem, u.space.homes, t', e')
      ensures e' == e
    {
      SamePlace(u.space.a, u.space.mem, u.space.root, u.space.homes, t, t');
    }
    forall f
      ensures !Maps(u.space.a, u.pages, va, f)
    {
      if Maps(u.space.a, u.pages, va, f) {
        var t' := PageSlot(u.space.a, u.space.mem, u.space.root, u.space.homes, u.pages, va, f);
        SamePlace(u.space.a, u.space.mem, u.space.root, u.space.homes, t, t');
        assert false;
      }
    }
  }

  /** The swap entries in the tables are those of the pages that are out. */
  lemma EntriesAgree(u: UserSpace, at: nat -> Word, top: nat, ptes: S.Ptes, mm: nat, e: Word)
    requires u.Valid() && Numbered(u.space.a, at, top) && Agree(u.space.a, u.space.mem, u.space.root, u.space.homes, u.pages, at, top, ptes, mm)
    ensures SwapWord(u.space.a, u.space.mem, u.space.homes, e) <==> exists k :: S.Holds(ptes, k, mm, e)
  {
    hide UserSpace.Valid, Numbered, EntryAt, Translate, Maps, SamePage;
    if SwapWord(u.space.a, u.space.mem, u.space.homes, e) {
      var t, i :| SwapIn(u.space.a, u.space.mem, u.space.homes, t, i) && Get(u.space.mem, t, i) == e;
      var p := SlotPage(u, at, top, t, i);
      OneWord(u, at(p), t, e);
      assert PageAgrees(u.space.a, u.space.mem, u.space.root, u.space.homes, u.pages, at, top, ptes, mm, p);
      assert S.Holds(ptes, S.Key(mm, p), mm, e);
    }
    if k :| S.Holds(ptes, k, mm, e) {
      assert PageAgrees(u.space.a, u.space.mem, u.space.root, u.space.homes, u.pages, at, top, ptes, mm, k.page);
      var t :| EntryAt(u.space.a, at(k.page), u.space.mem, u.space.homes, t, e);
      EntryIsWord(u.space.a, at(k.page), u.space.mem, u.space.homes, t, e);
    }
  }

  lemma EntryIsWord(a: Arch, va: Word, mem: Memory, homes: Homes, t: Word, e: Word)
    requires EntryAt(a, va, mem, homes, t, e)
    ensures SwapWord(a, mem, homes, e)
  {
    hide SwapIn;
  }

  /** The frames in the tables are those of the resident pages. */
  lemma FramesAgree(u: UserSpace, at: nat -> Word, top: nat, ptes: S.Ptes, mm: nat, f: Word)
    requires u.Valid() && Numbered(u.space.a, at, top) && Agree(u.space.a, u.space.mem, u.space.root, u.space.homes, u.pages, at, top, ptes, mm)
    ensures f in u.pages <==> f in S.FramesOf(ptes, mm)
  {
    hide UserSpace.Valid, Numbered, EntryAt, Translate, Maps, SamePage, Agree, S.FramesOf;
    if f in u.pages {
      var p := FramePage(u, at, top, f);
      ResidentTranslates(u.space.a, u.space.mem, u.space.root, u.space.homes, u.pages, at, top, ptes, mm, p);
      ResidentFound(u.space.a, u.space.mem, u.space.root, u.space.homes, u.pages, at, top, ptes, mm, p);
      OnlyFrame(u, at(p), f);
    }
    if f in S.FramesOf(ptes, mm) {
      var k: S.Key :| k.mm == mm && S.At(ptes, k).Resident? && S.At(ptes, k).frame == f;
      ResidentFound(u.space.a, u.space.mem, u.space.root, u.space.homes, u.pages, at, top, ptes, mm, k.page);
      MapsIs(u.space.a, u.pages, at(k.page), f);
    }
  }

  lemma MapsIs(a: Arch, pages: Paths, va: Word, f: Word)
    requires Maps(a, pages, va, f)
    ensures f in pages
  {
  }

  lemma FramePage(u: UserSpace, at: nat -> Word, top: nat, f: Word) returns (p: nat)
    requires u.Valid() && Numbered(u.space.a, at, top) && f in u.pages
    ensures p < top && Maps(u.space.a, u.pages, at(p), f) && Translate(u.space.a, u.space.mem, u.space.root, at(p)).Some?
  {
    hide Lawful, Tree, FreshPool, Counted, OpenLinks, RefsOk, Accounted, Number, Path, UserVa, Translate;
    p := Number(u.pages[f]);
    NumberTells(u.pages[f], Path(u.space.a, at(p), u.space.a.levels));
    FrameShows(u.space.a, u.space.mem, u.space.root, u.space.homes, u.pages, at(p), f);
  }

  class PagedSwap {
    const swap: S.SwapSpace
    const u: UserSpace
    const mm: nat                           // the address space these tables are of
    const at: nat -> Word
    const top: nat

    /** A new address space next to those that have pages out already. */
    constructor (swap: S.SwapSpace, u: UserSpace, mm: nat, at: nat -> Word, top: nat)
      requires swap.Valid() && swap.flying == None && u.Valid() && Numbered(u.space.a, at, top) && Distinguished(u.space.a)
      requires swap.pool == u.space.frames.pool && u.pages == map[] && (forall i: Index :: i < 256 ==> Get(u.space.mem, u.space.root, i) == ZERO)
      requires (forall k :: k in swap.ptes ==> k.mm != mm) && forall f :: f in u.all ==> S.Ref(swap.refs, f) == 0
      ensures Valid() && this.swap == swap && this.u == u && this.mm == mm && this.at == at && this.top == top
    {
      hide S.SwapSpace.Valid, UserSpace.Valid, Numbered, Agree, Distinguished;
      this.swap, this.u, this.mm, this.at, this.top := swap, u, mm, at, top;
      new;
      EmptyAgrees(u, at, top, swap.ptes, mm);
    }

    ghost predicate Valid()
      reads this, swap, u, u.space
    {
      && swap.Valid() && swap.flying == None && u.Valid() && Numbered(u.space.a, at, top) && Distinguished(u.space.a)
      && swap.pool == u.space.frames.pool && RefsAgree(u.all, u.pages.Keys, swap.refs)
      && Agree(u.space.a, u.space.mem, u.space.root, u.space.homes, u.pages, at, top, swap.ptes, mm)
    }

    /** The oldest page goes out: the tables are searched for it, its bytes go to a free slot, and the
        slot's entry takes its place. */
    method OutOne(ok: bool, garbage: S.Page) returns (done: bool, page: nat)
      requires Valid() && |garbage| == 8
      modifies swap, u, u.space
      ensures Valid()
      ensures done <==> ok && S.CanLeave(old(swap.ptes), old(swap.refs), old(swap.bits), swap.limit, old(swap.Queue(mm)), mm)
      ensures !done ==> unchanged(u) && unchanged(u.space)
      ensures done ==> old(swap.Queue(mm)) != [] && 0 < page < top && Maps(u.space.a, old(u.pages), at(page), old(swap.Queue(mm))[0])
      ensures done ==> S.UserPage(old(swap.ptes), S.Key(mm, page), mm, old(swap.Queue(mm))[0])
      ensures done ==> Translate(u.space.a, u.space.mem, u.space.root, at(page)).None? && swap.pool != []
      ensures done ==> Kept(page, old(swap.ptes), swap.ptes) && S.Key(mm, page) in swap.saved
      ensures done ==> swap.saved[S.Key(mm, page)] == old(swap.Content(swap.Queue(mm)[0]))
      ensures done ==> forall vb :: !SamePage(u.space.a, at(page), vb) ==>
                Translate(u.space.a, u.space.mem, u.space.root, vb) == Translate(u.space.a, old(u.space.mem), u.space.root, vb)
    {
      hide S.SwapSpace.Valid, UserSpace.Valid, Numbered, Agree, Translate, SamePage, OtherEntries, EntryAt, S.CanLeave, S.Occupied,
        S.SetOccupied, Number,
        Entry, Path, UserVa, Formed, Distinguished, SlotOf, WriteOf, ExecuteOf, RefsAgree;
      page := 0;
      if swap.Queue(mm) != [] {
        page := FindPage(u, swap.Queue(mm)[0]);
      }
      var key;
      ghost var slot, a, ptes0, mem0, homes0, pages0 := 0, u.space.a, swap.ptes, u.space.mem, u.space.homes, u.pages;
      SwapSized();
      done, key, slot := swap.OutOne(mm, ok, garbage);
      if done {
        ghost var victim := old(swap.Queue(mm))[0];
        ResidentFound(a, mem0, u.space.root, homes0, pages0, at, top, ptes0, mm, key.page);
        assert key == S.Key(mm, page);
        ghost var was := S.At(ptes0, key);
        OnlyFrame(u, at(page), victim);
        EntryFormed(slot, was.write, was.execute, a);
        EntryRoundTrip(slot, was.write, was.execute);
        var entry := swap.ptes[key].entry;
        var out := u.SwapOutPage(at(page), entry);
        assert Shows(a, u.space.mem, u.space.root, u.space.homes, u.pages, at(page), S.Swapped(entry));
        RefsOut(u.all, pages0.Keys, old(swap.refs), victim);
        assert u.pages.Keys == pages0.Keys - {victim};
        AgreeNext(a, mem0, u.space.mem, u.space.root, homes0, u.space.homes, pages0, u.pages, at, top, ptes0, mm, page, S.Swapped(entry));
      }
    }

    /** The page was resident in user memory, and its entry keeps its rights. */
    ghost predicate Kept(page: nat, ptes: S.Ptes, ptes': S.Ptes) {
      var was, now := S.At(ptes, S.Key(mm, page)), S.At(ptes', S.Key(mm, page));
      was.Resident? && was.user && now.Swapped? && WriteOf(now.entry) == was.write && ExecuteOf(now.entry) == was.execute
    }

    /** Page `page` comes back into a free frame, with the rights its entry kept. */
    method In(page: nat, ok: bool) returns (e: Error)
      requires Valid() && page < top
      modifies swap, u, u.space
      ensures Valid()
      ensures e == NoError <==> ok && old(swap.pool) != [] && Replaced(old(swap.ptes), page)
      ensures e == NoError ==> ShowsSaved(page, S.At(old(swap.ptes), S.Key(mm, page)).entry, old(swap.saved))
      ensures e == NoError ==> forall vb :: !SamePage(u.space.a, at(page), vb) ==>
                Translate(u.space.a, u.space.mem, u.space.root, vb) == Translate(u.space.a, old(u.space.mem), u.space.root, vb)
      ensures e != NoError ==> SameTranslations(u.space.a, old(u.space.mem), u.space.mem, u.space.root)
    {
      hide S.SwapSpace.Valid, UserSpace.Valid, Numbered, Agree, Translate, SamePage, OtherEntries, EntryAt, S.Occupied,
        S.SetOccupied, Number, Path, UserVa,
        Formed, Distinguished, WriteOf, ExecuteOf, Maps, SameTranslations, Shows, RefsAgree;
      SameAddresses(u.space.a, u.space.mem, u.space.root);
      ghost var a, ptes0, mem0, homes0, pages0 := u.space.a, swap.ptes, u.space.mem, u.space.homes, u.pages;
      var key := S.Key(mm, page);
      var inc := swap.InBegin(key, ok);
      if inc.Failure? {
        SetPool(u, swap.pool);
        return inc.error;
      }
      e := swap.InFinish(key, inc.value);
      EntryThere(a, mem0, u.space.root, homes0, pages0, at, top, ptes0, mm, page);
      var write, execute := WriteOf(inc.value.entry), ExecuteOf(inc.value.entry);
      MapBack(u, at(page), write, execute, inc.value.frame, swap.pool);
      RefsIn(u.all, pages0.Keys, old(swap.refs), inc.value.frame);
      AgreeNext(a, mem0, u.space.mem, u.space.root, homes0, u.space.homes, pages0, u.pages, at, top, ptes0, mm, page,
                S.Resident(inc.value.frame, true, write, execute));
    }

    /** Out and in again: user code finds the page with the rights and the bytes it had, and no other
        page changed. */
    method OutThenIn(garbage: S.Page) returns (done: bool, page: nat, ghost f: Word)
      requires Valid() && |garbage| == 8
      modifies swap, u, u.space
      ensures Valid()
      ensures done <==> S.CanLeave(old(swap.ptes), old(swap.refs), old(swap.bits), swap.limit, old(swap.Queue(mm)), mm)
      ensures done ==> 0 < page < top && S.At(old(swap.ptes), S.Key(mm, page)).Resident?
      ensures done ==> var was := S.At(old(swap.ptes), S.Key(mm, page));
                && old(Shows(u.space.a, u.space.mem, u.space.root, u.space.homes, u.pages, at(page), S.At(swap.ptes, S.Key(mm, page))))
                && Shows(u.space.a, u.space.mem, u.space.root, u.space.homes, u.pages, at(page), was.(frame := f))
      ensures done ==> swap.Content(f) == old(swap.Content(swap.Queue(mm)[0])) && S.At(old(swap.ptes), S.Key(mm, page)).frame == old(swap.Queue(mm))[0]
      ensures done ==> forall vb :: !SamePage(u.space.a, at(page), vb) ==>
                Translate(u.space.a, u.space.mem, u.space.root, vb) == Translate(u.space.a, old(u.space.mem), u.space.root, vb)
    {
      hide UserSpace.Valid, Numbered, Translate, SamePage, S.CanLeave, S.Occupied, S.SetOccupied, Number, Formed, Distinguished,
        WriteOf, ExecuteOf, Maps,
        SameTranslations, Shows, S.SlotsNamed, S.DiskHolds, S.FramesOk, RefsAgree;
      f := ZERO;
      done, page := OutOne(true, garbage);
      if done {
        assert old(PageAgrees(u.space.a, u.space.mem, u.space.root, u.space.homes, u.pages, at, top, swap.ptes, mm, page));
        ghost var e, saved := S.At(swap.ptes, S.Key(mm, page)).entry, swap.saved;
        var r := In(page, true);
        f :| && Shows(u.space.a, u.space.mem, u.space.root, u.space.homes, u.pages, at(page), S.Resident(f, true, WriteOf(e), ExecuteOf(e)))
             && S.Key(mm, page) in saved && swap.Content(f) == saved[S.Key(mm, page)];
      }
    }

    /** Page `page` gets a free frame and can be swapped out from now on.  If it was out, its slot is lost. */
    method MapPage(page: nat, write: bool, execute: bool) returns (r: Option<Word>)
      requires Valid() && page < top
      modifies swap, u, u.space
      ensures Valid() <==> r.None? || !Replaced(old(swap.ptes), page)
      ensures r.None? ==> S.At(old(swap.ptes), S.Key(mm, page)).Resident? || |old(swap.pool)| <= u.space.a.levels
      ensures r.None? ==> swap.ptes == old(swap.ptes) && swap.fifo == old(swap.fifo) && SameTranslations(u.space.a, old(u.space.mem), u.space.mem, u.space.root)
      ensures r.Some? ==> !S.At(old(swap.ptes), S.Key(mm, page)).Resident? && swap.Queue(mm) == old(swap.Queue(mm)) + [r.value]
      ensures r.Some? ==> Shows(u.space.a, u.space.mem, u.space.root, u.space.homes, u.pages, at(page), S.Resident(r.value, true, write, execute))
      ensures r.Some? ==> forall vb :: !SamePage(u.space.a, at(page), vb) ==>
                Translate(u.space.a, u.space.mem, u.space.root, vb) == Translate(u.space.a, old(u.space.mem), u.space.root, vb)
    {
      hide S.SwapSpace.Valid, UserSpace.Valid, Agree, Translate, SamePage, OtherEntries, SameEntries, EntryAt, Number, Path, UserVa, Formed,
        Distinguished, Maps, SameTranslations, Shows, Sequences.NoRepeat, RefsAgree;
      ghost var a, ptes0, mem0, homes0, pages0 := u.space.a, swap.ptes, u.space.mem, u.space.homes, u.pages;
      ResidentTranslates(a, mem0, u.space.root, homes0, pages0, at, top, ptes0, mm, page);
      r := MapFresh(u, at(page), write, execute);
      if r.None? {
        swap.LoseFrames(u.space.frames.pool);
        AgreeSame(a, mem0, u.space.mem, u.space.root, homes0, u.space.homes, u.pages, at, top, ptes0, mm);
      } else {
        swap.MapPage(S.Key(mm, page), r.value, write, execute, u.space.frames.pool);
        RefsIn(u.all, pages0.Keys, old(swap.refs), r.value);
        AgreeNext(a, mem0, u.space.mem, u.space.root, homes0, u.space.homes, pages0, u.pages, at, top, ptes0, mm, page,
                  S.Resident(r.value, true, write, execute));
      }
    }

    /** The end of the address space: its frames are free, each once, its slots too, and the pages of other
        address spaces are as they were. */
    method Teardown()
      requires Valid() && u.space.a.levels > 1
      modifies swap, u, u.space
      ensures swap.Valid() && swap.flying == None && swap.ptes == S.AfterMm(old(swap.ptes), mm)
      ensures forall s: nat :: 0 < s < swap.limit ==> (S.Occupied(swap.bits, s) <==> S.Occupied(old(swap.bits), s) && !S.NamedBy(old(swap.ptes), mm, s))
      ensures Sequences.NoRepeat(swap.pool) && (set f | f in swap.pool) == u.all
      ensures swap.saved == map k | k in old(swap.saved) && k.mm != mm :: old(swap.saved)[k]
      ensures forall m :: swap.Queue(m) == S.Kept(old(swap.Queue(m)), S.FramesOf(old(swap.ptes), mm))
    {
      hide S.SwapSpace.Valid, Agree, Numbered, S.Occupied, S.NamedBy, S.Kept, S.FramesOf, S.AfterMm, Sequences.NoRepeat, SwapWord, S.Holds, NamedTo,
        Lawful, Tree, FreshPool, Counted, PagesOk, OpenLinks, RefsOk, Accounted, S.Ref, Distinguished;
      forall e
        ensures SwapWord(u.space.a, u.space.mem, u.space.homes, e) <==> exists k :: S.Holds(swap.ptes, k, mm, e)
      {
        EntriesAgree(u, at, top, swap.ptes, mm, e);
      }
      forall f
        ensures f in u.pages <==> f in S.FramesOf(swap.ptes, mm)
      {
        FramesAgree(u, at, top, swap.ptes, mm, f);
      }
      var n := |u.released|;
      u.FreeUserPgdir();
      assert forall f :: f in u.space.frames.pool ==> f in set g | g in u.space.frames.pool;
      swap.Teardown(mm, u.released[n..], u.space.frames.pool);
    }

    ghost predicate Replaced(ptes: S.Ptes, page: nat) {
      S.At(ptes, S.Key(mm, page)).Swapped?
    }

    /** The page is mapped, with the rights of entry `e`, to a frame that holds the bytes saved for it. */
    ghost predicate ShowsSaved(page: nat, e: Word, saved: map<S.Key, S.Page>)
      requires swap.Sized()
      reads this, swap, u, u.space
    {
      exists f ::
        && Shows(u.space.a, u.space.mem, u.space.root, u.space.homes, u.pages, at(page), S.Resident(f, true, WriteOf(e), ExecuteOf(e)))
        && S.Key(mm, page) in saved && swap.Content(f) == saved[S.Key(mm, page)]
    }

    lemma SwapSized()
      requires swap.Valid()
      ensures swap.limit <= MAX_SLOTS
    {
    }
  }
}
