/** A user address space from creation to teardown: what it takes it gives back. */
module UserSpaces {
  import opened Errors
  import opened PageTables
  import opened PageTrees
  import opened AddressSpaces
  import opened UserFrames
  import opened FrameCosts
  import opened Sequences

  ghost predicate UserVa(a: Arch, va: Word) {
    a.index(va, 0) < 256
  }

  /** No slot of the user half holds a block, and the links there take no right away. */
  ghost predicate OpenLinks(a: Arch, mem: Memory, homes: Homes) {
    forall t, i :: t in homes && homes[t].level + 1 < a.levels && UserPath(homes[t].path + [i]) ==>
      !IsBlock(a, Get(mem, t, i)) && (IsTable(a, Get(mem, t, i)) ==> OpenTable(a, Get(mem, t, i)))
  }

  lemma UserPathOf(a: Arch, va: Word, l: nat)
    requires UserVa(a, va)
    ensures UserPath(Path(a, va, l) + [a.index(va, l)]) && UserPath(Path(a, va, l + 1))
  {
  }

  lemma NoBlocksHere(a: Arch, mem: Memory, homes: Homes, va: Word)
    requires OpenLinks(a, mem, homes) && UserVa(a, va)
    ensures NoBlocksOn(a, mem, homes, va)
  {
    hide Path;
    forall f | f in homes && OnPathOf(a, va, homes[f]) && homes[f].level + 1 < a.levels
      ensures !IsBlock(a, Get(mem, f, a.index(va, homes[f].level)))
    {
      UserPathOf(a, va, homes[f].level);
    }
  }

  lemma GrowNoBlocks(a: Arch, va: Word, mem: Memory, mem': Memory, homes: Homes, homes': Homes)
    requires Lawful(a) && OpenLinks(a, mem, homes) && NoBlocksOn(a, mem, homes, va) && GrewAlong(a, va, mem, mem', homes, homes', a.levels - 1)
    ensures OpenLinks(a, mem', homes')
  {
    hide NoBlocksOn, TablesStay, Lawful, OnPathOf;
    ZeroAbsent(a);
  }

  lemma GrowPages(a: Arch, va: Word, mem: Memory, mem': Memory, homes: Homes, homes': Homes, pages: Paths)
    requires Lawful(a) && PagesOk(a, mem, homes, pages) && NoBlocksOn(a, mem, homes, va) && GrewAlong(a, va, mem, mem', homes, homes', a.levels - 1)
    requires forall f :: f in homes' && f !in homes ==> f !in pages
    ensures PagesOk(a, mem', homes', pages)
  {
    hide NoBlocksOn, TablesStay, Lawful, OnPathOf, UserPath;
    ZeroAbsent(a);
    forall f | f in pages
      ensures exists t :: PageIn(a, mem', homes', pages, t, f)
    {
      var t :| PageIn(a, mem, homes, pages, t, f);
      assert PageIn(a, mem', homes', pages, t, f);
    }
  }

  /** A page stored into the absent leaf slot of `va`. */
  lemma StorePage(a: Arch, va: Word, mem: Memory, root: Word, homes: Homes, pages: Paths, t: Word, frame: Word, word: Word)
    requires PagesOk(a, mem, homes, pages) && Tree(a, mem, root, homes) && a.levels > 0 && UserVa(a, va)
    requires t in homes && homes[t] == Place(a.levels - 1, Path(a, va, a.levels - 1))
    requires !a.present(Get(mem, t, a.index(va, a.levels - 1))) && a.present(word) && a.addr(word) == frame
    requires frame !in pages && frame !in homes
    ensures PagesOk(a, mem[(t, a.index(va, a.levels - 1)) := word], homes, pages[frame := Path(a, va, a.levels)])
  {
    hide UserPath, Tree, Path;
    var n, i := a.levels - 1, a.index(va, a.levels - 1);
    var mem', pages' := mem[(t, i) := word], pages[frame := Path(a, va, a.levels)];
    PathNext(a, va, n);
    UserPathOf(a, va, n);
    forall f | f in pages'
      ensures |pages'[f]| == a.levels > 0 && UserPath(pages'[f]) && exists u :: PageIn(a, mem', homes, pages', u, f)
    {
      if f == frame {
        assert pages'[f][..n] == Path(a, va, n) && pages'[f][n] == i;
        assert PageIn(a, mem', homes, pages', t, f);
      } else {
        var u :| PageIn(a, mem, homes, pages, u, f);
        assert PageIn(a, mem', homes, pages', u, f);
      }
    }
    forall u, j | u in homes && homes[u].level + 1 == a.levels && UserPath(homes[u].path + [j]) && a.present(Get(mem', u, j))
      ensures a.addr(Get(mem', u, j)) in pages' && pages'[a.addr(Get(mem', u, j))] == homes[u].path + [j]
    {
      if (u, j) != (t, i) {
        assert Get(mem', u, j) == Get(mem, u, j);
      }
    }
  }

  /** A page taken out of its leaf slot. */
  lemma TakePage(a: Arch, va: Word, mem: Memory, root: Word, homes: Homes, pages: Paths, t: Word, frame: Word, word: Word)
    requires PagesOk(a, mem, homes, pages) && Tree(a, mem, root, homes) && a.levels > 0 && UserVa(a, va)
    requires t in homes && homes[t] == Place(a.levels - 1, Path(a, va, a.levels - 1))
    requires a.present(Get(mem, t, a.index(va, a.levels - 1))) && a.addr(Get(mem, t, a.index(va, a.levels - 1))) == frame && !a.present(word)
    ensures frame in pages && PagesOk(a, mem[(t, a.index(va, a.levels - 1)) := word], homes, pages - {frame})
  {
    hide UserPath, Tree, Path;
    var n, i := a.levels - 1, a.index(va, a.levels - 1);
    var mem', pages' := mem[(t, i) := word], pages - {frame};
    UserPathOf(a, va, n);
    forall f | f in pages'
      ensures exists u :: PageIn(a, mem', homes, pages', u, f)
    {
      var u :| PageIn(a, mem, homes, pages, u, f);
      assert PageIn(a, mem', homes, pages', u, f);
    }
    forall u, j | u in homes && homes[u].level + 1 == a.levels && UserPath(homes[u].path + [j]) && a.present(Get(mem', u, j))
      ensures a.addr(Get(mem', u, j)) in pages' && pages'[a.addr(Get(mem', u, j))] == homes[u].path + [j]
    {
      assert Get(mem', u, j) == Get(mem, u, j);
      if a.addr(Get(mem, u, j)) == frame {
        SnocInjective(homes[u].path, j, homes[t].path, i);
        SamePlace(a, mem, root, homes, u, t);
      }
    }
  }

  // ---- Accounts ----

  ghost function UserTables(homes: Homes): set<Word> {
    set f | f in homes && UserPath(homes[f].path)
  }

  /** Every frame of `all` is free, a user table, a user page or the root, and is so once. */
  ghost predicate Accounted(all: set<Word>, root: Word, homes: Homes, pages: Paths, pool: seq<Word>) {
    multiset(pool) + multiset(UserTables(homes)) + multiset(pages.Keys) + multiset{root} == multiset(all)
  }

  /** User tables were taken from the allocator, pages have one reference and free frames none. */
  ghost predicate RefsOk(a: Arch, homes: Homes, pages: Paths, fr: Frames) {
    && UserTables(homes) <= fr.tables
    && (forall f :: f in pages ==> a.isFrame(f) && fr.Ref(f) == 1)
    && forall f :: f in fr.pool ==> fr.Ref(f) == 0
  }

  lemma Cancel(x: multiset<Word>, y: multiset<Word>, z: multiset<Word>)
    requires x + y == x + z
    ensures y == z
  {
    forall f
      ensures y[f] == z[f]
    {
      assert (x + y)[f] == (x + z)[f];
    }
  }

  lemma NewTables(homes: Homes, homes': Homes, fr: Frames, fr': Frames)
    requires Took(homes, homes', fr, fr')
    ensures multiset(fr.pool) == multiset(fr'.pool) + multiset(homes'.Keys - homes.Keys)
    ensures forall f :: f in homes' && f !in homes ==> f in fr.pool
    ensures forall f :: f in fr'.pool ==> f in fr.pool
  {
    hide Frames.Ref;
    var new_ := homes'.Keys - homes.Keys;
    assert multiset(homes'.Keys) == multiset(homes.Keys) + multiset(new_);
    Cancel(multiset(homes.Keys), multiset(fr.pool), multiset(fr'.pool) + multiset(new_));
    forall f | f in homes' && f !in homes
      ensures f in fr.pool
    {
      assert f in multiset(new_);
      assert f in multiset(fr.pool);
    }
    forall f | f in fr'.pool
      ensures f in fr.pool
    {
      assert f in multiset(fr'.pool);
      assert f in multiset(fr.pool);
    }
  }

  ghost predicate Fewer(pool: seq<Word>, pool': seq<Word>) {
    forall f :: f in pool' ==> f in pool
  }

  lemma FewerLeft(homes: Homes, homes': Homes, pool: seq<Word>, fr: Frames, fr': Frames)
    requires pool != [] && fr.pool == pool[1..] && pool[0] !in fr.pool && Took(homes, homes', fr, fr')
    ensures Fewer(pool, fr'.pool) && Fewer(pool, fr'.pool + [pool[0]]) && pool[0] !in fr'.pool
  {
    hide Took;
    NewTables(homes, homes', fr, fr');
  }

  lemma NewAreUser(a: Arch, va: Word, mem: Memory, mem': Memory, root: Word, homes: Homes, homes': Homes)
    requires Tree(a, mem', root, homes') && root in homes && UserVa(a, va) && GrewAlong(a, va, mem, mem', homes, homes', a.levels - 1)
    ensures UserTables(homes') == UserTables(homes) + (homes'.Keys - homes.Keys)
    ensures UserTables(homes) !! (homes'.Keys - homes.Keys)
  {
    hide Tree, Path, TablesStay, NoBlocksOn;
    forall f | f in homes' && f !in homes
      ensures UserPath(homes'[f].path)
    {
      RootPath(a, mem', root, homes');
      if homes'[f].level == 0 {
        SamePlace(a, mem', root, homes', f, root);
      } else {
        UserPathOf(a, va, homes'[f].level - 1);
      }
    }
  }

  lemma GrowAccounts(a: Arch, va: Word, mem: Memory, mem': Memory, root: Word, homes: Homes, homes': Homes, fr: Frames, fr': Frames,
                     pages: Paths, all: set<Word>, extra: multiset<Word>)
    requires Tree(a, mem', root, homes') && root in homes && UserVa(a, va) && GrewAlong(a, va, mem, mem', homes, homes', a.levels - 1)
    requires Took(homes, homes', fr, fr')
    requires multiset(fr.pool) + multiset(UserTables(homes)) + extra == multiset(all)
    ensures multiset(fr'.pool) + multiset(UserTables(homes')) + extra == multiset(all)
  {
    hide Tree, GrewAlong, Took, UserTables;
    NewTables(homes, homes', fr, fr');
    NewAreUser(a, va, mem, mem', root, homes, homes');
    assert multiset(UserTables(homes')) == multiset(UserTables(homes)) + multiset(homes'.Keys - homes.Keys);
  }

  lemma GrowRefs(a: Arch, va: Word, mem: Memory, mem': Memory, root: Word, homes: Homes, homes': Homes, fr: Frames, fr': Frames, pages: Paths)
    requires Tree(a, mem', root, homes') && root in homes && UserVa(a, va) && GrewAlong(a, va, mem, mem', homes, homes', a.levels - 1)
    requires Took(homes, homes', fr, fr') && FreshPool(a, fr'.pool, homes') && RefsOk(a, homes, pages, fr) && forall f :: f in pages ==> f !in fr.pool
    ensures RefsOk(a, homes', pages, fr')
  {
    hide Tree, GrewAlong, UserTables, Frames.Ref;
    NewTables(homes, homes', fr, fr');
    NewAreUser(a, va, mem, mem', root, homes, homes');
    forall f | f in pages
      ensures fr'.Ref(f) == 1
    {
      assert !(f in homes' && f !in homes);
    }
  }

  // ---- The address space ----

  class UserSpace {
    const space: AddressSpace
    ghost const all: set<Word>          // the frames there were before this space
    var released: seq<Word>             // swap entries given up, in order
    ghost var pages: Paths

    ghost predicate Valid()
      reads this, space
    {
      && space.Valid() && PagesOk(space.a, space.mem, space.homes, pages) && OpenLinks(space.a, space.mem, space.homes)
      && Accounted(all, space.root, space.homes, pages, space.frames.pool)
      && RefsOk(space.a, space.homes, pages, space.frames)
    }

    /** A fresh root whose upper half is the kernel's. */
    constructor (a: Arch, kroot: Word, mem: Memory, frames: Frames, ghost khomes: Homes)
      requires Lawful(a) && Tree(a, mem, kroot, khomes) && FreshPool(a, frames.pool, khomes) && Counted(a, frames, khomes)
      requires frames.pool != [] && forall f :: f in frames.pool ==> frames.Ref(f) == 0 && f !in frames.tables
      ensures Valid() && fresh(space) && space.a == a && pages == map[] && released == []
      ensures all == (set f | f in frames.pool) && |all| == |frames.pool| && Taken(space.homes, pages) == {}
      ensures forall i: Index :: Get(space.mem, space.root, i) == if i < 256 then ZERO else Get(mem, kroot, i)
    {
      hide Lawful, Tree, Counted, PagesOk, OpenLinks, RefsOk, Accounted, Taken, WithRoot, CopyUpper, UserTables;
      var root, rest := frames.pool[0], frames.(pool := frames.pool[1..]);
      ghost var homes := WithRoot(khomes, kroot, root);
      space := new AddressSpace(a, root, CopyUpper(mem, kroot, root), rest, homes);
      all := set f | f in frames.pool;
      released, pages := [], map[];
      new;
      RootTaken(a, frames, khomes, kroot, root);
      CopiedSlots(mem, kroot, root);
      KernelCopied(a, mem, kroot, khomes, root);
      FreshIsAccounted(a, frames, kroot, khomes, root);
      FreshSizes(frames.pool, khomes, kroot, root);
      FreshIsEmpty(a, mem, kroot, khomes, root);
    }

    /** Takes a free frame and maps it; a failure gives it back. */
    method AllocAndMapPage(va: Word, perm: bv32) returns (r: Option<Word>)
      requires Valid() && UserVa(space.a, va)
      modifies this, space
      ensures Valid() && released == old(released)
      ensures r.None? ==> pages == old(pages) && SameTranslations(space.a, old(space.mem), space.mem, space.root)
      ensures r.None? ==> Translate(space.a, old(space.mem), space.root, va).Some? || |old(space.frames.pool)| <= space.a.levels
      ensures r.None? ==> Translate(space.a, old(space.mem), space.root, va).Some? || |Taken(space.homes, pages) + Chain(space.a, va)| >= |all|
      ensures old(Taken(space.homes, pages)) <= Taken(space.homes, pages) <= old(Taken(space.homes, pages)) + Chain(space.a, va)
      ensures r.Some? ==> pages == old(pages)[r.value := Path(space.a, va, space.a.levels)] && r.value !in old(pages)
      ensures r.Some? ==> Translate(space.a, old(space.mem), space.root, va).None?
      ensures r.Some? ==> OtherEntries(space.a, va, old(space.mem), space.mem, old(space.homes), space.homes)
      ensures r.None? ==> SameEntries(space.a, old(space.mem), space.mem, old(space.homes), space.homes)
      ensures Fewer(old(space.frames.pool), space.frames.pool) && (r.Some? ==> r.value in old(space.frames.pool) && r.value !in space.frames.pool)
      ensures r.Some? && HasLeaf(space.a, old(space.mem), space.root, va) ==> old(space.frames.pool) == [r.value] + space.frames.pool
      ensures r.None? && HasLeaf(space.a, old(space.mem), space.root, va) && Translate(space.a, old(space.mem), space.root, va).None? ==>
                unchanged(this) && unchanged(space) && space.frames.pool == []
      ensures r.Some? ==> OnePage(space.a, old(space.mem), space.mem, space.root, va, r.value, perm)
      ensures r.Some? ==> |space.frames.pool| < |old(space.frames.pool)| <= |space.frames.pool| + space.a.levels
      ensures SameKernel(space.a, old(space.mem), space.mem, old(space.homes))
    {
      hide Lawful, Tree, FreshPool, Counted, Took, PagesOk, OpenLinks, RefsOk, GrewAlong, StoredAt, OnePage, UserTables,
        SameTranslations, SameKernel, UserVa, Path, Taken, Chain, Translate, LeadsToLeaf, HasLeaf, OtherEntries, SameEntries, Fewer;
      SameHere(space.a, space.mem, space.root, space.homes);
      SamePages(space.a, space.mem, space.homes, space.frames.pool);
      HasLevels(space.a);
      if space.frames.pool == [] {
        NoWay(space.a, space.mem, space.root, space.homes, space.frames, pages, all, va, 0);
        return None;
      }
      var frame := space.frames.pool[0];
      ghost var a, mem0, homes0, frames0 := space.a, space.mem, space.homes, space.frames;
      space.frames := space.frames.(pool := space.frames.pool[1..]);
      ghost var frames1 := space.frames;
      FrameTaken(a, mem0, space.root, homes0, pages, frames0, all);
      RootPath(a, mem0, space.root, homes0);
      var e := space.PageInsert(frame, va, perm);
      FewerLeft(homes0, space.homes, frames0.pool, if e == NoError then frames1.Shared(frame) else frames1, space.frames);
      if e != NoError {
        FailedInsert(a, va, mem0, space.mem, space.root, homes0, space.homes, frames1, space.frames, pages, all, frame);
        space.frames := space.frames.(pool := space.frames.pool + [frame]);
        GrowTakes(a, va, mem0, space.mem, space.root, homes0, space.homes, pages);
        FailedEntries(a, va, mem0, space.mem, homes0, space.homes);
        if e == NoMem {
          StillNone(a, mem0, space.mem, space.root, va);
          NoWay(a, space.mem, space.root, space.homes, space.frames, pages, all, va, 1);
        }
        return None;
      }
      DoneInsert(a, va, mem0, space.mem, space.root, homes0, space.homes, frames1, space.frames, pages, all, frame, perm);
      StoredTakes(a, va, mem0, space.mem, space.root, homes0, space.homes, pages, a.makePage(frame, perm), frame);
      StoredEntries(a, va, mem0, space.mem, homes0, space.homes, a.makePage(frame, perm));
      pages := pages[frame := Path(a, va, a.levels)];
      return Some(frame);
    }

    /** Replaces the page of `va` by the swap entry `entry` and frees its frame. */
    method SwapOutPage(va: Word, entry: Word) returns (ok: bool)
      requires Valid() && UserVa(space.a, va) && !space.a.present(entry) && entry != ZERO
      modifies this, space
      ensures Valid() && released == old(released) && SameKernel(space.a, old(space.mem), space.mem, old(space.homes))
      ensures !ok ==> unchanged(this) && unchanged(space) && forall f :: !Maps(space.a, pages, va, f)
      ensures ok ==> exists f :: Maps(space.a, old(pages), va, f) && pages == old(pages) - {f} && space.frames.pool == old(space.frames.pool) + [f]
      ensures ok ==> (exists t :: EntryAt(space.a, va, space.mem, space.homes, t, entry)) && Translate(space.a, space.mem, space.root, va).None?
      ensures ok ==> OtherEntries(space.a, va, old(space.mem), space.mem, old(space.homes), space.homes)
      ensures ok ==> forall vb :: !SamePage(space.a, va, vb) ==>
                Translate(space.a, space.mem, space.root, vb) == Translate(space.a, old(space.mem), space.root, vb)
      ensures forall f :: f in pages ==> space.frames.Ref(f) == old(space.frames).Ref(f)
    {
      hide Lawful, Tree, FreshPool, Counted, Took, PagesOk, OpenLinks, RefsOk, GrewAlong, UserTables, SameTranslations, SameKernel,
        UserVa, Path, Accounted, LeadsToLeaf, EntryAt, Frames.Ref, OtherEntries, Translate, SamePage;
      SameHere(space.a, space.mem, space.root, space.homes);
      HasLevels(space.a);
      var pte := space.GetPte(va, false);
      if pte.None? || !space.a.present(Get(space.mem, pte.value.table, pte.value.slot)) {
        SlotOfPage(space.a, space.mem, space.root, space.homes, pages, va, pte);
        return false;
      }
      var Pte(t, i) := pte.value;
      var frame := space.a.addr(Get(space.mem, t, i));
      PageOfLeaf(space.a, va, space.mem, space.homes, pages, t);
      // One reference, that of this slot, so the frame may go.
      OnePageRef(space.a, space.homes, pages, space.frames, frame);
      ghost var a, mem0, frames0 := space.a, space.mem, space.frames;
      space.mem := space.mem[(t, i) := entry];
      SwappedOut(a, va, mem0, space.root, space.homes, space.frames, pages, all, t, frame, entry);
      EntryStored(a, va, mem0, space.mem, space.root, space.homes, t, entry);
      FreePage(frame);
      PageBack(a, mem0, space.root, space.homes, pages, frames0, space.frames, all, frame);
      assert Maps(a, pages, va, frame);
      pages := pages - {frame};
      return true;
    }

    /** Brings the page of `va` back and releases the swap entry that stood for it. */
    method SwapInPage(va: Word, perm: bv32) returns (r: Option<Word>)
      requires Valid() && UserVa(space.a, va)
      modifies this, space
      ensures Valid() && SameKernel(space.a, old(space.mem), space.mem, old(space.homes))
      ensures r.None? <==> old(space.frames.pool) == [] || forall t, e :: !EntryAt(space.a, va, old(space.mem), old(space.homes), t, e)
      ensures r.None? ==> unchanged(this) && unchanged(space)
      ensures r.Some? ==> old(space.frames.pool) == [r.value] + space.frames.pool && r.value !in old(pages)
      ensures r.Some? ==> pages == old(pages)[r.value := Path(space.a, va, space.a.levels)]
      ensures r.Some? ==> OtherEntries(space.a, va, old(space.mem), space.mem, old(space.homes), space.homes)
      ensures r.Some? ==> OnePage(space.a, old(space.mem), space.mem, space.root, va, r.value, perm)
      ensures r.Some? ==> exists t, e :: EntryAt(space.a, va, old(space.mem), old(space.homes), t, e) && released == old(released) + [e]
    {
      hide Lawful, Tree, FreshPool, Counted, Took, PagesOk, OpenLinks, RefsOk, GrewAlong, UserTables, SameTranslations, SameKernel,
        UserVa, Path, Accounted, LeadsToLeaf, OnePage;
      SameHere(space.a, space.mem, space.root, space.homes);
      HasLevels(space.a);
      var pte := space.GetPte(va, false);
      SlotOfEntry(space.a, space.mem, space.root, space.homes, va, pte);
      if pte.None? {
        return None;
      }
      var entry := Get(space.mem, pte.value.table, pte.value.slot);
      if space.a.present(entry) || entry == ZERO {
        return None;
      }
      LeafTranslates(space.a, space.mem, space.root, space.homes, va, pte.value.table);
      UserLeaf(space.a, va);
      assert EntryAt(space.a, va, space.mem, space.homes, pte.value.table, entry);
      r := AllocAndMapPage(va, perm);
      if r.Some? {
        released := released + [entry];
      }
    }

    // -- Teardown: memory stays as it is, frames go back to the allocator --

    /** Drops one reference to a page and frees it with the last. */
    method FreePage(f: Word)
      requires space.frames.Ref(f) == 1
      modifies space`frames
      ensures space.frames.tables == old(space.frames.tables)
      ensures space.frames.pool == old(space.frames.pool) + [f]
      ensures forall g :: space.frames.Ref(g) == if g == f then 0 else old(space.frames).Ref(g)
    {
      var fr := space.frames;
      var n := if fr.Ref(f) > 0 then fr.Ref(f) - 1 else 0;
      fr := fr.(refs := fr.refs[f := n]);
      if n == 0 {
        fr := fr.(pool := fr.pool + [f]);
      }
      space.frames := fr;
    }

    /** Frees everything below slot `i` of table `t`. */
    method FreeSlot(t: Word, l: nat, i: Index)
      requires l < space.a.levels && NoRepeat(CollectSlot(space.a, space.mem, t, l, i))
      requires forall f :: f in CollectSlot(space.a, space.mem, t, l, i) ==> space.frames.Ref(f) == 1
      modifies this`released, space`frames
      ensures space.frames.pool == old(space.frames.pool) + CollectSlot(space.a, space.mem, t, l, i)
      ensures forall f :: space.frames.Ref(f) == if f in CollectSlot(space.a, space.mem, t, l, i) then 0 else old(space.frames).Ref(f)
      ensures released == old(released) + NamedSlot(space.a, space.mem, t, l, i)
      decreases space.a.levels - l, 0
    {
      hide CollectTo, NamedTo, Frames.Ref, NoRepeat;
      var a := space.a;
      var e := Get(space.mem, t, i);
      if !a.present(e) {
        if l == a.levels - 1 && e != ZERO {
          released := released + [e];
        }
      } else if l == a.levels - 1 {
        FreePage(a.addr(e));
      } else if !a.isBlock(e) {
        var child := a.addr(e);
        ghost var below := CollectTo(a, space.mem, child, l + 1, 512);
        assert CollectSlot(a, space.mem, t, l, i) == below + [child];
        NoRepeatParts(below + [child], below, [child]);
        FreeSubtree(child, l + 1);
        FreeTable(child);
      }
    }

    method FreeTable(f: Word)
      requires space.frames.Ref(f) == 1
      modifies space`frames
      ensures space.frames.pool == old(space.frames.pool) + [f]
      ensures forall g :: space.frames.Ref(g) == if g == f then 0 else old(space.frames).Ref(g)
    {
      space.frames := space.frames.Freed(f);
    }

    /** Frees everything below table `t`. */
    method FreeSubtree(t: Word, l: nat)
      requires l < space.a.levels && NoRepeat(CollectTo(space.a, space.mem, t, l, 512))
      requires forall f :: f in CollectTo(space.a, space.mem, t, l, 512) ==> space.frames.Ref(f) == 1
      modifies this`released, space`frames
      ensures space.frames.pool == old(space.frames.pool) + CollectTo(space.a, space.mem, t, l, 512)
      ensures forall f :: space.frames.Ref(f) == if f in CollectTo(space.a, space.mem, t, l, 512) then 0 else old(space.frames).Ref(f)
      ensures released == old(released) + NamedTo(space.a, space.mem, t, l, 512)
      decreases space.a.levels - l, 1
    {
      hide CollectSlot, NamedSlot, Frames.Ref, NoRepeat;
      ghost var a, mem := space.a, space.mem;
      for k := 0 to 512
        invariant space.frames.pool == old(space.frames.pool) + CollectTo(a, mem, t, l, k)
        invariant forall f :: space.frames.Ref(f) == if f in CollectTo(a, mem, t, l, k) then 0 else old(space.frames).Ref(f)
        invariant released == old(released) + NamedTo(a, mem, t, l, k)
      {
        ghost var done, here := CollectTo(a, mem, t, l, k), CollectSlot(a, mem, t, l, k as Index);
        CollectPrefix(a, mem, t, l, k + 1, 512);
        assert CollectTo(a, mem, t, l, k + 1) == done + here;
        NoRepeatParts(CollectTo(a, mem, t, l, 512), done, here);
        FreeSlot(t, l, k as Index);
      }
    }

    /** Gives the whole address space back: every frame it took is free again, each once, every
        swap entry it named is released, and memory, the kernel half included, is untouched. */
    method FreeUserPgdir()
      requires Valid() && space.a.levels > 1
      modifies this`released, space`frames
      ensures NoRepeat(space.frames.pool) && (set f | f in space.frames.pool) == all
      ensures released == old(released) + NamedTo(space.a, space.mem, space.root, 0, 256)
      ensures forall e :: e in NamedTo(space.a, space.mem, space.root, 0, 256) <==> SwapWord(space.a, space.mem, space.homes, e)
      ensures forall f :: f in space.homes && !UserPath(space.homes[f].path) && f != space.root ==> f !in space.frames.pool
    {
      hide CollectSlot, NamedSlot, Frames.Ref, NoRepeat, PagesOk, Tree, Accounted, RefsOk, FreshPool, Counted, OpenLinks, SwapIn;
      ghost var a, mem, root, homes, taken := space.a, space.mem, space.root, space.homes, CollectTo(space.a, space.mem, space.root, 0, 256);
      TeardownCollects(a, mem, root, homes, pages);
      OneReference(a, mem, root, homes, pages, space.frames, taken);
      for k := 0 to 256
        invariant space.frames.pool == old(space.frames.pool) + CollectTo(a, mem, root, 0, k)
        invariant forall f :: space.frames.Ref(f) == if f in CollectTo(a, mem, root, 0, k) then 0 else old(space.frames).Ref(f)
        invariant released == old(released) + NamedTo(a, mem, root, 0, k)
      {
        ghost var done, here := CollectTo(a, mem, root, 0, k), CollectSlot(a, mem, root, 0, k as Index);
        CollectPrefix(a, mem, root, 0, k + 1, 256);
        assert CollectTo(a, mem, root, 0, k + 1) == done + here;
        NoRepeatParts(taken, done, here);
        FreeSlot(space.root, 0, k as Index);
      }
      space.frames := space.frames.(pool := space.frames.pool + [space.root]);
      AllBack(a, mem, root, homes, pages, old(space.frames.pool), taken, all);
      forall e
        ensures e in NamedTo(a, mem, root, 0, 256) <==> SwapWord(a, mem, homes, e)
      {
        SwapNamed(a, mem, root, homes, pages, e);
      }
    }
  }

  /** Every frame is free, has its place in the user half, or is the root. */
  lemma FramesAdd(a: Arch, mem: Memory, root: Word, homes: Homes, pages: Paths, pool: seq<Word>, all: set<Word>)
    requires Tree(a, mem, root, homes) && PagesOk(a, mem, homes, pages) && Accounted(all, root, homes, pages, pool)
    ensures |pool| + |Taken(homes, pages)| + 1 == |all|
  {
    hide Tree, PagesOk, Taken, UserPath;
    TakenSize(a, mem, root, homes, pages, UserTables(homes));
    assert |multiset(pool) + multiset(UserTables(homes)) + multiset(pages.Keys) + multiset{root}| == |multiset(all)|;
  }

  lemma StillNone(a: Arch, mem: Memory, mem': Memory, root: Word, va: Word)
    requires SameTranslations(a, mem, mem', root)
    ensures Translate(a, mem', root, va) == Translate(a, mem, root, va)
  {
  }

  /** There are not the frames to map `va`. */
  lemma NoWay(a: Arch, mem: Memory, root: Word, homes: Homes, fr: Frames, pages: Paths, all: set<Word>, va: Word, free: nat)
    requires Lawful(a) && a.levels > 0 && Tree(a, mem, root, homes) && PagesOk(a, mem, homes, pages) && Accounted(all, root, homes, pages, fr.pool)
    requires |fr.pool| == free && (free == 0 || (free == 1 && forall t :: !LeadsToLeaf(a, mem, root, va, 0, t)))
    ensures Translate(a, mem, root, va).Some? || |Taken(homes, pages) + Chain(a, va)| >= |all|
  {
    hide Lawful, Tree, PagesOk, Taken, Chain, Accounted, Path, LeadsToLeaf, Translate;
    FramesAdd(a, mem, root, homes, pages, fr.pool, all);
    if Translate(a, mem, root, va).None? {
      forall f | f in pages
        ensures pages[f] != Path(a, va, a.levels)
      {
        if pages[f] == Path(a, va, a.levels) {
          FrameShows(a, mem, root, homes, pages, va, f);
        }
      }
      TooMany(a, mem, root, homes, pages, va, free, |all|);
    }
  }

  /** A page that has a frame translates. */
  lemma FrameShows(a: Arch, mem: Memory, root: Word, homes: Homes, pages: Paths, va: Word, f: Word)
    requires Lawful(a) && Tree(a, mem, root, homes) && PagesOk(a, mem, homes, pages) && Maps(a, pages, va, f)
    ensures Translate(a, mem, root, va).Some?
  {
    hide Lawful, Tree, PagesOk, Translate, Maps, LeadsToLeaf;
    var t := PageSlot(a, mem, root, homes, pages, va, f);
    LeafTranslates(a, mem, root, homes, va, t);
  }

  lemma StoredTakes(a: Arch, va: Word, mem: Memory, mem': Memory, root: Word, homes: Homes, homes': Homes, pages: Paths, word: Word, frame: Word)
    requires Tree(a, mem', root, homes') && root in homes && StoredAt(a, va, mem, mem', homes, homes', word) && frame !in pages
    ensures var pages' := pages[frame := Path(a, va, a.levels)];
      Taken(homes, pages) <= Taken(homes', pages') <= Taken(homes, pages) + Chain(a, va)
  {
    hide Tree, GrewAlong, Path, Taken, Chain;
    var mem1, t :| StoreStep(a, va, mem, mem1, mem', homes, homes', t, word);
    StoredTree(a, va, mem1, mem', root, homes', t);
    GrowTakes(a, va, mem, mem1, root, homes, homes', pages);
    PageTakes(a, homes', pages, va, frame);
  }

  /** Slot `i` of user leaf table `t` holds a swap entry. */
  ghost predicate SwapIn(a: Arch, mem: Memory, homes: Homes, t: Word, i: Index) {
    && t in homes && homes[t].level + 1 == a.levels && UserPath(homes[t].path + [i])
    && !a.present(Get(mem, t, i)) && Get(mem, t, i) != ZERO
  }

  /** Some user leaf slot holds the swap entry `e`. */
  ghost predicate SwapWord(a: Arch, mem: Memory, homes: Homes, e: Word) {
    exists t, i :: SwapIn(a, mem, homes, t, i) && Get(mem, t, i) == e
  }

  ghost predicate EntryAt(a: Arch, va: Word, mem: Memory, homes: Homes, t: Word, entry: Word) {
    && a.levels > 0 && SwapIn(a, mem, homes, t, a.index(va, a.levels - 1)) && Get(mem, t, a.index(va, a.levels - 1)) == entry
    && homes[t] == Place(a.levels - 1, Path(a, va, a.levels - 1))
  }

  /** The swap entries of all pages but that of `va` are as they were. */
  ghost predicate OtherEntries(a: Arch, va: Word, mem: Memory, mem': Memory, homes: Homes, homes': Homes) {
    forall vb, t, e :: !SamePage(a, va, vb) ==> (EntryAt(a, vb, mem', homes', t, e) <==> EntryAt(a, vb, mem, homes, t, e))
  }

  lemma GrownEntries(a: Arch, va: Word, vb: Word, mem: Memory, mem': Memory, homes: Homes, homes': Homes, t: Word, e: Word)
    requires NoBlocksOn(a, mem, homes, va) && a.levels > 0 && GrewAlong(a, va, mem, mem', homes, homes', a.levels - 1)
    ensures EntryAt(a, vb, mem', homes', t, e) <==> EntryAt(a, vb, mem, homes, t, e)
  {
    hide NoBlocksOn, TablesStay, ChangedToTables, Path, UserPath, OnPathOf;
  }

  /** The swap entries of all pages are as they were. */
  ghost predicate SameEntries(a: Arch, mem: Memory, mem': Memory, homes: Homes, homes': Homes) {
    forall vb, t, e :: EntryAt(a, vb, mem', homes', t, e) <==> EntryAt(a, vb, mem, homes, t, e)
  }

  lemma SamePages(a: Arch, mem: Memory, homes: Homes, pool: seq<Word>)
    ensures SameEntries(a, mem, mem, homes, homes) && Fewer(pool, pool)
  {
  }

  lemma FailedEntries(a: Arch, va: Word, mem: Memory, mem': Memory, homes: Homes, homes': Homes)
    requires OpenLinks(a, mem, homes) && UserVa(a, va) && a.levels > 0 && GrewAlong(a, va, mem, mem', homes, homes', a.levels - 1)
    ensures SameEntries(a, mem, mem', homes, homes')
  {
    hide GrewAlong, EntryAt, OpenLinks, UserVa, NoBlocksOn;
    NoBlocksHere(a, mem, homes, va);
    forall vb, t, e
      ensures EntryAt(a, vb, mem', homes', t, e) <==> EntryAt(a, vb, mem, homes, t, e)
    {
      GrownEntries(a, va, vb, mem, mem', homes, homes', t, e);
    }
  }

  lemma SetEntries(a: Arch, va: Word, vb: Word, mem: Memory, homes: Homes, u: Word, word: Word, t: Word, e: Word)
    requires a.levels > 0 && u in homes && homes[u] == Place(a.levels - 1, Path(a, va, a.levels - 1)) && !SamePage(a, va, vb)
    ensures EntryAt(a, vb, mem[(u, a.index(va, a.levels - 1)) := word], homes, t, e) <==> EntryAt(a, vb, mem, homes, t, e)
  {
    hide Path, UserPath;
    if t == u && t in homes && homes[t] == Place(a.levels - 1, Path(a, vb, a.levels - 1)) && a.index(va, a.levels - 1) == a.index(vb, a.levels - 1) {
      PathNext(a, va, a.levels - 1);
      PathNext(a, vb, a.levels - 1);
      assert false;
    }
  }

  lemma StoredEntries(a: Arch, va: Word, mem: Memory, mem': Memory, homes: Homes, homes': Homes, word: Word)
    requires StoredAt(a, va, mem, mem', homes, homes', word) && OpenLinks(a, mem, homes) && UserVa(a, va)
    ensures OtherEntries(a, va, mem, mem', homes, homes')
  {
    hide GrewAlong, EntryAt, OpenLinks, UserVa, SamePage, NoBlocksOn;
    var mem1, u :| StoreStep(a, va, mem, mem1, mem', homes, homes', u, word);
    NoBlocksHere(a, mem, homes, va);
    forall vb, t, e | !SamePage(a, va, vb)
      ensures EntryAt(a, vb, mem', homes', t, e) <==> EntryAt(a, vb, mem, homes, t, e)
    {
      GrownEntries(a, va, vb, mem, mem1, homes, homes', t, e);
      SetEntries(a, va, vb, mem1, homes', u, word, t, e);
    }
  }

  /** Frame `f` is the page of `va`. */
  ghost predicate Maps(a: Arch, pages: Paths, va: Word, f: Word) {
    f in pages && pages[f] == Path(a, va, a.levels)
  }

  lemma OnePageRef(a: Arch, homes: Homes, pages: Paths, fr: Frames, f: Word)
    requires RefsOk(a, homes, pages, fr) && f in pages
    ensures fr.Ref(f) == 1
  {
  }

  lemma UserLeaf(a: Arch, va: Word)
    requires a.levels > 0 && UserVa(a, va)
    ensures UserPath(Path(a, va, a.levels - 1) + [a.index(va, a.levels - 1)])
  {
    UserPathOf(a, va, a.levels - 1);
  }

  /** The slot of a swap entry is the leaf slot the walk gets to. */
  lemma SlotOfEntry(a: Arch, mem: Memory, root: Word, homes: Homes, va: Word, pte: Option<Pte>)
    requires Tree(a, mem, root, homes)
    requires pte.None? ==> forall t :: !LeadsToLeaf(a, mem, root, va, 0, t)
    requires pte.Some? ==> a.levels > 0 && pte.value.table in homes && homes[pte.value.table] == Place(a.levels - 1, Path(a, va, a.levels - 1))
    ensures forall t, e :: EntryAt(a, va, mem, homes, t, e) ==> pte.Some? && t == pte.value.table
  {
    hide Tree, Path;
    forall t, e | EntryAt(a, va, mem, homes, t, e)
      ensures pte.Some? && t == pte.value.table
    {
      HomeLeads(a, mem, root, homes, va, t);
      assert LeadsToLeaf(a, mem, root, va, 0, t);
      if pte.Some? {
        SamePlace(a, mem, root, homes, t, pte.value.table);
      }
    }
  }

  /** A mapped page is in the leaf slot of its address, and the walk gets there. */
  lemma PageSlot(a: Arch, mem: Memory, root: Word, homes: Homes, pages: Paths, va: Word, f: Word) returns (t: Word)
    requires Tree(a, mem, root, homes) && PagesOk(a, mem, homes, pages) && Maps(a, pages, va, f)
    ensures a.levels > 0 && t in homes && homes[t] == Place(a.levels - 1, Path(a, va, a.levels - 1)) && LeadsToLeaf(a, mem, root, va, 0, t)
    ensures a.present(Get(mem, t, a.index(va, a.levels - 1)))
  {
    hide Tree, Path;
    var n := a.levels - 1;
    t :| PageIn(a, mem, homes, pages, t, f);
    PathNext(a, va, n);
    assert Path(a, va, a.levels)[..n] == Path(a, va, n) && Path(a, va, a.levels)[n] == a.index(va, n);
    HomeLeads(a, mem, root, homes, va, t);
  }

  /** The page of `va` is where the leaf slot says. */
  lemma SlotOfPage(a: Arch, mem: Memory, root: Word, homes: Homes, pages: Paths, va: Word, pte: Option<Pte>)
    requires Tree(a, mem, root, homes) && PagesOk(a, mem, homes, pages)
    requires pte.None? ==> forall t :: !LeadsToLeaf(a, mem, root, va, 0, t)
    requires pte.Some? ==> a.levels > 0 && pte.value.table in homes && homes[pte.value.table] == Place(a.levels - 1, Path(a, va, a.levels - 1))
    requires pte.Some? ==> !a.present(Get(mem, pte.value.table, a.index(va, a.levels - 1)))
    ensures forall f :: !Maps(a, pages, va, f)
  {
    hide Tree, PagesOk, Path, LeadsToLeaf, Maps;
    forall f
      ensures !Maps(a, pages, va, f)
    {
      if Maps(a, pages, va, f) {
        var t := PageSlot(a, mem, root, homes, pages, va, f);
        if pte.Some? {
          SamePlace(a, mem, root, homes, t, pte.value.table);
        }
        assert false;
      }
    }
  }

  /** Teardown names the swap entries of the user half and nothing else. */
  lemma SwapNamed(a: Arch, mem: Memory, root: Word, homes: Homes, pages: Paths, e: Word)
    requires a.levels > 1 && Tree(a, mem, root, homes) && PagesOk(a, mem, homes, pages)
    ensures e in NamedTo(a, mem, root, 0, 256) <==> SwapWord(a, mem, homes, e)
  {
    hide Tree, PagesOk, NamedTo, SwapIn;
    if e in NamedTo(a, mem, root, 0, 256) {
      var t, i := NamedIsThere(a, mem, root, homes, pages, e);
      SwapInIs(a, mem, homes, t, i);
    }
    if SwapWord(a, mem, homes, e) {
      var t, i :| SwapIn(a, mem, homes, t, i) && Get(mem, t, i) == e;
      SwapInIs(a, mem, homes, t, i);
      TeardownNames(a, mem, root, homes, pages, t, i);
    }
  }

  lemma SwapInIs(a: Arch, mem: Memory, homes: Homes, t: Word, i: Index)
    ensures SwapIn(a, mem, homes, t, i) <==>
            t in homes && homes[t].level + 1 == a.levels && UserPath(homes[t].path + [i]) && !a.present(Get(mem, t, i)) && Get(mem, t, i) != ZERO
  {
  }

  lemma OneReference(a: Arch, mem: Memory, root: Word, homes: Homes, pages: Paths, fr: Frames, taken: seq<Word>)
    requires Counted(a, fr, homes) && RefsOk(a, homes, pages, fr)
    requires forall f :: f in taken <==> (f in homes && UserPath(homes[f].path)) || f in pages
    ensures forall f :: f in taken ==> fr.Ref(f) == 1
  {
    hide Frames.Ref;
  }

  lemma AllBack(a: Arch, mem: Memory, root: Word, homes: Homes, pages: Paths, pool: seq<Word>, taken: seq<Word>, all: set<Word>)
    requires Accounted(all, root, homes, pages, pool) && NoRepeat(taken) && FreshPool(a, pool, homes) && PagesOk(a, mem, homes, pages)
    requires forall f :: f in taken <==> (f in homes && UserPath(homes[f].path)) || f in pages
    ensures NoRepeat(pool + taken + [root]) && (set f | f in pool + taken + [root]) == all
    ensures forall f :: f in homes && !UserPath(homes[f].path) && f != root ==> f !in pool + taken + [root]
  {
    hide PagesOk, NoRepeat, FreshPool, UserPath;
    TakenCounts(a, mem, homes, pages, taken);
    var back := pool + taken + [root];
    assert multiset(back) == multiset(pool) + multiset(taken) + multiset{root};
    BackOnce(back, all);
    KernelApart(a, mem, homes, pages, pool);
  }

  lemma TakenCounts(a: Arch, mem: Memory, homes: Homes, pages: Paths, taken: seq<Word>)
    requires NoRepeat(taken) && PagesOk(a, mem, homes, pages)
    requires forall f :: f in taken <==> (f in homes && UserPath(homes[f].path)) || f in pages
    ensures multiset(taken) == multiset(UserTables(homes)) + multiset(pages.Keys)
  {
    hide PagesOk, UserPath;
    var u := UserTables(homes);
    PagesApart(a, mem, homes, pages);
    DistinctCounts(taken);
    assert (set f | f in taken) == u + pages.Keys;
    assert u !! pages.Keys;
  }

  lemma KernelApart(a: Arch, mem: Memory, homes: Homes, pages: Paths, pool: seq<Word>)
    requires FreshPool(a, pool, homes) && PagesOk(a, mem, homes, pages)
    ensures forall f :: f in homes && !UserPath(homes[f].path) ==> f !in pool && f !in pages
  {
  }

  lemma BackOnce(s: seq<Word>, all: set<Word>)
    requires multiset(s) == multiset(all)
    ensures NoRepeat(s) && (set f | f in s) == all
  {
    forall i, j | 0 <= i < j < |s|
      ensures s[i] != s[j]
    {
      TwiceIn(s, i, j);
      assert multiset(all)[s[i]] <= 1;
    }
    forall f
      ensures f in s <==> f in all
    {
      assert f in s <==> f in multiset(s);
    }
  }

  /** The kernel half of the tree is as it was. */
  ghost predicate SameKernel(a: Arch, mem: Memory, mem': Memory, homes: Homes) {
    forall t, i :: t in homes && !UserPath(homes[t].path + [i]) ==> Get(mem', t, i) == Get(mem, t, i)
  }

  lemma SameHere(a: Arch, mem: Memory, root: Word, homes: Homes)
    ensures SameTranslations(a, mem, mem, root) && SameKernel(a, mem, mem, homes)
  {
  }

  /** No frame is in two places. */
  lemma Apart(all: set<Word>, root: Word, homes: Homes, pages: Paths, pool: seq<Word>)
    requires Accounted(all, root, homes, pages, pool)
    ensures forall f :: f in pages ==> f !in pool && f !in UserTables(homes) && f != root
    ensures forall f :: f in pool ==> f != root && f in all
    ensures NoRepeat(pool)
  {
    hide UserTables;
    var u := UserTables(homes);
    forall f
      ensures multiset(pool)[f] + multiset(u)[f] + multiset(pages.Keys)[f] + multiset{root}[f] <= 1
    {
      assert multiset(all)[f] <= 1;
      assert (multiset(pool) + multiset(u) + multiset(pages.Keys) + multiset{root})[f] == multiset(all)[f];
    }
    forall f | f in pages
      ensures f !in pool && f !in u && f != root
    {
      assert multiset(pages.Keys)[f] == 1;
      assert f in pool ==> multiset(pool)[f] >= 1;
    }
    forall f | f in pool
      ensures f in all && f != root
    {
      assert multiset(pool)[f] >= 1;
      assert f in multiset(all);
    }
    forall i, j | 0 <= i < j < |pool|
      ensures pool[i] != pool[j]
    {
      TwiceIn(pool, i, j);
    }
  }

  lemma TwiceIn(s: seq<Word>, i: nat, j: nat)
    requires i < j < |s|
    ensures s[i] == s[j] ==> multiset(s)[s[i]] >= 2
  {
    assert s == s[..i] + [s[i]] + s[i + 1..j] + [s[j]] + s[j + 1..];
  }

  lemma FrameTaken(a: Arch, mem: Memory, root: Word, homes: Homes, pages: Paths, fr: Frames, all: set<Word>)
    requires FreshPool(a, fr.pool, homes) && Counted(a, fr, homes) && Accounted(all, root, homes, pages, fr.pool) && RefsOk(a, homes, pages, fr)
    requires fr.pool != []
    ensures var fr', frame := fr.(pool := fr.pool[1..]), fr.pool[0];
      && FreshPool(a, fr'.pool, homes) && Counted(a, fr', homes) && RefsOk(a, homes, pages, fr')
      && a.isFrame(frame) && frame !in homes && frame !in fr'.pool && frame !in pages && fr.Ref(frame) == 0
      && (forall f :: f in pages ==> f !in fr'.pool)
      && multiset(fr'.pool) + multiset(UserTables(homes)) + (multiset(pages.Keys) + multiset{root} + multiset{frame}) == multiset(all)
  {
    hide UserTables, Accounted;
    Apart(all, root, homes, pages, fr.pool);
    FirstOut(all, root, homes, pages, fr.pool);
    var rest, frame := fr.pool[1..], fr.pool[0];
    assert forall k :: 0 <= k < |rest| ==> rest[k] == fr.pool[k + 1];
    assert forall f :: fr.(pool := rest).Ref(f) == fr.Ref(f);
  }

  lemma FirstOut(all: set<Word>, root: Word, homes: Homes, pages: Paths, pool: seq<Word>)
    requires Accounted(all, root, homes, pages, pool) && pool != []
    ensures multiset(pool[1..]) + multiset(UserTables(homes)) + (multiset(pages.Keys) + multiset{root} + multiset{pool[0]}) == multiset(all)
  {
    hide UserTables;
    assert pool == [pool[0]] + pool[1..];
  }

  lemma FailedInsert(a: Arch, va: Word, mem: Memory, mem': Memory, root: Word, homes: Homes, homes': Homes, fr: Frames, fr': Frames,
                     pages: Paths, all: set<Word>, frame: Word)
    requires Lawful(a) && Tree(a, mem', root, homes') && root in homes && UserVa(a, va)
    requires PagesOk(a, mem, homes, pages) && OpenLinks(a, mem, homes) && RefsOk(a, homes, pages, fr)
    requires a.isFrame(frame) && frame !in homes && frame !in fr.pool && fr.Ref(frame) == 0 && forall f :: f in pages ==> f !in fr.pool
    requires multiset(fr.pool) + multiset(UserTables(homes)) + (multiset(pages.Keys) + multiset{root} + multiset{frame}) == multiset(all)
    requires Took(homes, homes', fr, fr') && GrewAlong(a, va, mem, mem', homes, homes', a.levels - 1)
    requires FreshPool(a, fr'.pool, homes') && Counted(a, fr', homes')
    ensures var fr'' := fr'.(pool := fr'.pool + [frame]);
      && FreshPool(a, fr''.pool, homes') && Counted(a, fr'', homes')
      && PagesOk(a, mem', homes', pages) && OpenLinks(a, mem', homes')
      && Accounted(all, root, homes', pages, fr''.pool) && RefsOk(a, homes', pages, fr'')
      && SameKernel(a, mem, mem', homes)
  {
    hide Lawful, Tree, UserTables, GrewAlong, PagesOk, OpenLinks, UserVa, Took, RefsOk, FreshPool, Counted, SameKernel, Frames.Ref;
    HasLevels(a);
    NoBlocksHere(a, mem, homes, va);
    NewTables(homes, homes', fr, fr');
    GrowPages(a, va, mem, mem', homes, homes', pages);
    GrowNoBlocks(a, va, mem, mem', homes, homes');
    GrowAccounts(a, va, mem, mem', root, homes, homes', fr, fr', pages, all, multiset(pages.Keys) + multiset{root} + multiset{frame});
    GrowRefs(a, va, mem, mem', root, homes, homes', fr, fr', pages);
    KernelKept(a, va, mem, mem', homes, homes');
    assert frame !in homes' && frame !in fr'.pool;
    PutBack(a, homes, homes', pages, fr, fr', frame);
  }

  lemma PutBack(a: Arch, homes: Homes, homes': Homes, pages: Paths, fr: Frames, fr': Frames, frame: Word)
    requires Took(homes, homes', fr, fr') && FreshPool(a, fr'.pool, homes') && Counted(a, fr', homes') && RefsOk(a, homes', pages, fr')
    requires a.isFrame(frame) && frame !in homes' && frame !in fr'.pool && fr.Ref(frame) == 0
    ensures var fr'' := fr'.(pool := fr'.pool + [frame]);
      FreshPool(a, fr''.pool, homes') && Counted(a, fr'', homes') && RefsOk(a, homes', pages, fr'')
  {
    hide UserTables;
    var fr'' := fr'.(pool := fr'.pool + [frame]);
    assert forall f :: fr''.Ref(f) == fr'.Ref(f);
    assert forall f :: f in fr''.pool ==> f == frame || f in fr'.pool;
  }

  lemma KernelKept(a: Arch, va: Word, mem: Memory, mem': Memory, homes: Homes, homes': Homes)
    requires a.levels > 0 && UserVa(a, va) && GrewAlong(a, va, mem, mem', homes, homes', a.levels - 1)
    ensures SameKernel(a, mem, mem', homes)
  {
    hide TablesStay, NoBlocksOn, NewArePlain, OnPathOf;
    forall t, i | t in homes && !UserPath(homes[t].path + [i])
      ensures !Passes(a, va, homes[t], i)
    {
      if Passes(a, va, homes[t], i) {
        UserPathOf(a, va, homes[t].level);
      }
    }
  }

  lemma DoneInsert(a: Arch, va: Word, mem: Memory, mem': Memory, root: Word, homes: Homes, homes': Homes, fr: Frames, fr': Frames,
                   pages: Paths, all: set<Word>, frame: Word, perm: bv32)
    requires Lawful(a) && Tree(a, mem', root, homes') && root in homes && UserVa(a, va)
    requires PagesOk(a, mem, homes, pages) && OpenLinks(a, mem, homes) && RefsOk(a, homes, pages, fr)
    requires a.isFrame(frame) && frame !in homes && frame !in fr.pool && frame !in pages && fr.Ref(frame) == 0 && forall f :: f in pages ==> f !in fr.pool
    requires multiset(fr.pool) + multiset(UserTables(homes)) + (multiset(pages.Keys) + multiset{root} + multiset{frame}) == multiset(all)
    requires Took(homes, homes', fr.Shared(frame), fr') && StoredAt(a, va, mem, mem', homes, homes', a.makePage(frame, perm))
    requires FreshPool(a, fr'.pool, homes')
    ensures var pages' := pages[frame := Path(a, va, a.levels)];
      && PagesOk(a, mem', homes', pages') && OpenLinks(a, mem', homes')
      && Accounted(all, root, homes', pages', fr'.pool) && RefsOk(a, homes', pages', fr')
      && SameKernel(a, mem, mem', homes)
  {
    hide Lawful, Tree, UserTables, GrewAlong, PagesOk, OpenLinks, UserVa, Took, RefsOk, FreshPool, SameKernel, Path, Frames.Ref;
    var mem1, t :| StoreStep(a, va, mem, mem1, mem', homes, homes', t, a.makePage(frame, perm));
    var fr1 := fr.Shared(frame);
    NoBlocksHere(a, mem, homes, va);
    NewTables(homes, homes', fr1, fr');
    assert frame !in homes';
    GrowPages(a, va, mem, mem1, homes, homes', pages);
    GrowNoBlocks(a, va, mem, mem1, homes, homes');
    StoredTree(a, va, mem1, mem', root, homes', t);
    RefsShared(a, homes, pages, fr, frame);
    GrowAccounts(a, va, mem, mem1, root, homes, homes', fr1, fr', pages, all, multiset(pages.Keys) + multiset{root} + multiset{frame});
    GrowRefs(a, va, mem, mem1, root, homes, homes', fr1, fr', pages);
    KernelKept(a, va, mem, mem1, homes, homes');
    PageWord(a, frame, perm);
    StorePage(a, va, mem1, root, homes', pages, t, frame, a.makePage(frame, perm));
    GrewHomes(a, va, mem, mem1, homes, homes');
    StoreKeeps(a, va, mem, mem1, homes, homes', t, a.makePage(frame, perm));
    var pages' := pages[frame := Path(a, va, a.levels)];
    assert multiset(pages'.Keys) == multiset(pages.Keys) + multiset{frame};
    RefsMore(a, homes, homes', pages, pages', fr, fr', frame);
  }

  lemma GrewHomes(a: Arch, va: Word, mem: Memory, mem': Memory, homes: Homes, homes': Homes)
    requires a.levels > 0 && GrewAlong(a, va, mem, mem', homes, homes', a.levels - 1)
    ensures forall f :: f in homes ==> f in homes' && homes'[f] == homes[f]
  {
  }

  lemma PageWord(a: Arch, frame: Word, perm: bv32)
    requires Lawful(a) && a.isFrame(frame)
    ensures a.present(a.makePage(frame, perm)) && a.addr(a.makePage(frame, perm)) == frame
  {
    assert PageOk(a, frame, perm);
  }

  /** The tree before the leaf store is the tree after it. */
  lemma StoredTree(a: Arch, va: Word, mem: Memory, mem': Memory, root: Word, homes: Homes, t: Word)
    requires Tree(a, mem', root, homes) && t in homes && a.levels > 0 && homes[t].level + 1 == a.levels
    requires forall f, j :: f != t ==> Get(mem', f, j) == Get(mem, f, j)
    ensures Tree(a, mem, root, homes)
  {
    SameTablesLinked(a, mem', mem, root, homes);
  }

  lemma StoreKeeps(a: Arch, va: Word, mem: Memory, mem1: Memory, homes: Homes, homes': Homes, t: Word, word: Word)
    requires a.levels > 0 && t in homes' && homes'[t] == Place(a.levels - 1, Path(a, va, a.levels - 1)) && UserVa(a, va)
    requires OpenLinks(a, mem1, homes') && SameKernel(a, mem, mem1, homes) && (t in homes ==> homes[t] == homes'[t])
    ensures OpenLinks(a, mem1[(t, a.index(va, a.levels - 1)) := word], homes')
    ensures SameKernel(a, mem, mem1[(t, a.index(va, a.levels - 1)) := word], homes)
  {
    hide UserVa, Path, UserPath;
    UserPathOf(a, va, a.levels - 1);
  }

  lemma RefsShared(a: Arch, homes: Homes, pages: Paths, fr: Frames, frame: Word)
    requires RefsOk(a, homes, pages, fr) && frame !in pages && frame !in fr.pool
    ensures RefsOk(a, homes, pages, fr.Shared(frame))
  {
    hide UserTables;
    assert forall f :: f != frame ==> fr.Shared(frame).Ref(f) == fr.Ref(f);
  }

  lemma RefsMore(a: Arch, homes: Homes, homes': Homes, pages: Paths, pages': Paths, fr: Frames, fr': Frames, frame: Word)
    requires RefsOk(a, homes', pages, fr') && Took(homes, homes', fr.Shared(frame), fr') && frame !in homes' && fr.Ref(frame) == 0
    requires a.isFrame(frame) && pages'.Keys == pages.Keys + {frame}
    ensures RefsOk(a, homes', pages', fr')
  {
    hide UserTables;
    assert fr.Shared(frame).Ref(frame) == 1;
  }

  // ---- A new address space ----

  /** The memory with a root that shares the kernel's upper half and is zero below. */
  function CopyUpper(mem: Memory, kroot: Word, root: Word): Memory {
    (map k | k in mem && k.0 != root :: mem[k]) + (map i: Index | 256 <= i :: (root, i) := Get(mem, kroot, i))
  }

  lemma CopiedSlots(mem: Memory, kroot: Word, root: Word)
    ensures forall i: Index :: Get(CopyUpper(mem, kroot, root), root, i) == if i < 256 then ZERO else Get(mem, kroot, i)
    ensures forall f, i :: f != root ==> Get(CopyUpper(mem, kroot, root), f, i) == Get(mem, f, i)
  {
  }

  /** The kernel's tree under the new root, without its lower half. */
  ghost function WithRoot(khomes: Homes, kroot: Word, root: Word): Homes {
    (map f | f in khomes && f != kroot && !UserPath(khomes[f].path) :: khomes[f])[root := Place(0, [])]
  }

  lemma RootTaken(a: Arch, fr: Frames, khomes: Homes, kroot: Word, root: Word)
    requires FreshPool(a, fr.pool, khomes) && Counted(a, fr, khomes) && fr.pool != [] && fr.pool[0] == root
    requires forall f :: f in fr.pool ==> fr.Ref(f) == 0 && f !in fr.tables
    ensures root !in khomes
    ensures var rest, homes := fr.(pool := fr.pool[1..]), WithRoot(khomes, kroot, root);
      FreshPool(a, rest.pool, homes) && Counted(a, rest, homes)
  {
    hide UserPath;
    var rest := fr.pool[1..];
    assert root in fr.pool;
    assert forall k :: 0 <= k < |rest| ==> rest[k] == fr.pool[k + 1];
    assert forall f :: fr.(pool := rest).Ref(f) == fr.Ref(f);
  }

  lemma KernelCopied(a: Arch, mem: Memory, kroot: Word, khomes: Homes, root: Word)
    requires Lawful(a) && Tree(a, mem, kroot, khomes) && root !in khomes
    ensures Tree(a, CopyUpper(mem, kroot, root), root, WithRoot(khomes, kroot, root))
  {
    hide SplitLaw, PageLaw, TableLaw, CopyUpper, WithRoot, HangsFrom, Homed, UserPath;
    CopiedSlots(mem, kroot, root);
    CopiedHomed(a, mem, kroot, khomes, root);
    var mem', homes := CopyUpper(mem, kroot, root), WithRoot(khomes, kroot, root);
    RootPath(a, mem, kroot, khomes);
    InCopy(khomes, kroot, root);
    forall f | f in homes && f != root
      ensures exists p :: HangsFrom(a, mem', homes, p, f)
    {
      var p :| HangsFrom(a, mem, khomes, p, f);
      CopiedHangs(a, mem, kroot, khomes, root, p, f);
    }
  }

  lemma InCopy(khomes: Homes, kroot: Word, root: Word)
    ensures var homes := WithRoot(khomes, kroot, root);
      && root in homes && homes[root] == Place(0, [])
      && forall f :: f in homes && f != root <==> f in khomes && f != kroot && f != root && !UserPath(khomes[f].path)
    ensures forall f :: f in WithRoot(khomes, kroot, root) && f != root ==> WithRoot(khomes, kroot, root)[f] == khomes[f]
  {
  }

  lemma CopiedHangs(a: Arch, mem: Memory, kroot: Word, khomes: Homes, root: Word, p: Word, f: Word)
    requires Tree(a, mem, kroot, khomes) && root !in khomes && f in khomes && f != kroot && !UserPath(khomes[f].path) && HangsFrom(a, mem, khomes, p, f)
    ensures exists q :: HangsFrom(a, CopyUpper(mem, kroot, root), WithRoot(khomes, kroot, root), q, f)
  {
    hide CopyUpper, WithRoot, Linked, Homed;
    CopiedSlots(mem, kroot, root);
    InCopy(khomes, kroot, root);
    var mem', homes := CopyUpper(mem, kroot, root), WithRoot(khomes, kroot, root);
    RootPath(a, mem, kroot, khomes);
    if p == kroot {
      assert HangsFrom(a, mem', homes, root, f);
    } else {
      PathLength(a, mem, kroot, khomes, p);
      if khomes[p].level == 0 {
        SamePlace(a, mem, kroot, khomes, p, kroot);
      }
      assert HangsFrom(a, mem', homes, p, f);
    }
  }

  lemma CopiedHomed(a: Arch, mem: Memory, kroot: Word, khomes: Homes, root: Word)
    requires Lawful(a) && Tree(a, mem, kroot, khomes) && root !in khomes
    ensures Homed(a, CopyUpper(mem, kroot, root), root, WithRoot(khomes, kroot, root))
  {
    hide SplitLaw, PageLaw, TableLaw, CopyUpper, WithRoot, Linked;
    CopiedSlots(mem, kroot, root);
    InCopy(khomes, kroot, root);
    var mem', homes := CopyUpper(mem, kroot, root), WithRoot(khomes, kroot, root);
    forall f, i | f in homes && homes[f].level + 1 < a.levels && IsTable(a, Get(mem', f, i))
      ensures a.addr(Get(mem', f, i)) in homes && homes[a.addr(Get(mem', f, i))] == Place(homes[f].level + 1, homes[f].path + [i])
    {
      var g := if f == root then kroot else f;
      assert Get(mem', f, i) == Get(mem, g, i);
      PathLength(a, mem, kroot, khomes, g);
      if khomes[g].level == 0 {
        SamePlace(a, mem, kroot, khomes, g, kroot);
      }
    }
  }

  lemma FreshIsAccounted(a: Arch, fr: Frames, kroot: Word, khomes: Homes, root: Word)
    requires FreshPool(a, fr.pool, khomes) && fr.pool != [] && fr.pool[0] == root && forall f :: f in fr.pool ==> fr.Ref(f) == 0
    ensures UserTables(WithRoot(khomes, kroot, root)) == {}
    ensures Accounted((set f | f in fr.pool), root, WithRoot(khomes, kroot, root), map[], fr.pool[1..])
    ensures RefsOk(a, WithRoot(khomes, kroot, root), map[], fr.(pool := fr.pool[1..]))
  {
    DistinctCounts(fr.pool);
    assert fr.pool == [root] + fr.pool[1..];
    assert forall f :: fr.(pool := fr.pool[1..]).Ref(f) == fr.Ref(f);
  }

  lemma FreshSizes(pool: seq<Word>, khomes: Homes, kroot: Word, root: Word)
    requires NoRepeat(pool)
    ensures |set f | f in pool| == |pool| && Taken(WithRoot(khomes, kroot, root), map[]) == {}
  {
    DistinctCounts(pool);
    assert |multiset(pool)| == |multiset(set f | f in pool)|;
  }

  lemma {:induction false} DistinctCounts(s: seq<Word>)
    requires NoRepeat(s)
    ensures multiset(s) == multiset(set f | f in s)
  {
    if s != [] {
      var rest := s[1..];
      assert s == [s[0]] + rest;
      assert s[0] !in rest;
      DistinctCounts(rest);
      assert (set f | f in s) == {s[0]} + (set f | f in rest);
    }
  }

  lemma FreshIsEmpty(a: Arch, mem: Memory, kroot: Word, khomes: Homes, root: Word)
    requires Lawful(a) && Tree(a, mem, kroot, khomes) && root !in khomes
    ensures PagesOk(a, CopyUpper(mem, kroot, root), WithRoot(khomes, kroot, root), map[])
    ensures OpenLinks(a, CopyUpper(mem, kroot, root), WithRoot(khomes, kroot, root))
  {
    hide SplitLaw, PageLaw, TableLaw, CopyUpper, Tree;
    CopiedSlots(mem, kroot, root);
    var homes := WithRoot(khomes, kroot, root);
    forall t, i | t in homes && t != root
      ensures !UserPath(homes[t].path + [i])
    {
      PathLength(a, mem, kroot, khomes, t);
      RootPath(a, mem, kroot, khomes);
      if homes[t].level == 0 {
        SamePlace(a, mem, kroot, khomes, t, kroot);
      }
    }
  }

  /** No user page translates under a root whose lower half is empty. */
  lemma EmptyHalf(a: Arch, mem: Memory, root: Word, va: Word)
    requires Lawful(a) && UserVa(a, va) && forall i: Index :: i < 256 ==> Get(mem, root, i) == ZERO
    ensures Translate(a, mem, root, va).None?
  {
    ZeroAbsent(a);
  }

  // ---- Swapping a page out ----

  lemma SwappedOut(a: Arch, va: Word, mem: Memory, root: Word, homes: Homes, fr: Frames, pages: Paths, all: set<Word>,
                   t: Word, frame: Word, entry: Word)
    requires Lawful(a) && a.levels > 0 && Tree(a, mem, root, homes) && UserVa(a, va) && !a.present(entry) && entry != ZERO
    requires PagesOk(a, mem, homes, pages) && OpenLinks(a, mem, homes) && RefsOk(a, homes, pages, fr)
    requires FreshPool(a, fr.pool, homes) && Counted(a, fr, homes) && Accounted(all, root, homes, pages, fr.pool)
    requires t in homes && homes[t] == Place(a.levels - 1, Path(a, va, a.levels - 1))
    requires a.present(Get(mem, t, a.index(va, a.levels - 1))) && a.addr(Get(mem, t, a.index(va, a.levels - 1))) == frame
    ensures var mem', pages' := mem[(t, a.index(va, a.levels - 1)) := entry], pages - {frame};
      && Tree(a, mem', root, homes) && PagesOk(a, mem', homes, pages') && OpenLinks(a, mem', homes)
      && SameKernel(a, mem, mem', homes) && SwapIn(a, mem', homes, t, a.index(va, a.levels - 1))
      && Accounted(all, root, homes, pages', fr.pool + [frame])
    ensures frame in pages && pages[frame] == Path(a, va, a.levels)
  {
    hide Lawful, Tree, UserVa, Path, PagesOk, OpenLinks, SameKernel, UserTables, FreshPool, RefsOk, Counted, Frames.Ref, UserPath;
    var i := a.index(va, a.levels - 1);
    var mem' := mem[(t, i) := entry];
    TakePage(a, va, mem, root, homes, pages, t, frame, entry);
    LeafTree(a, mem, mem', root, homes, t);
    SameHere(a, mem, root, homes);
    StoreKeeps(a, va, mem, mem, homes, homes, t, entry);
    UserPathOf(a, va, a.levels - 1);
    PageOfLeaf(a, va, mem, homes, pages, t);
    assert multiset(pages.Keys) == multiset((pages - {frame}).Keys) + multiset{frame};
  }

  /** The leaf slot of `va` holds the entry, so `va` does not translate, and nothing else changed. */
  lemma EntryStored(a: Arch, va: Word, mem: Memory, mem': Memory, root: Word, homes: Homes, t: Word, entry: Word)
    requires Lawful(a) && a.levels > 0 && Tree(a, mem, root, homes) && UserVa(a, va) && !a.present(entry) && entry != ZERO
    requires t in homes && homes[t] == Place(a.levels - 1, Path(a, va, a.levels - 1)) && LeadsToLeaf(a, mem, root, va, 0, t)
    requires mem' == mem[(t, a.index(va, a.levels - 1)) := entry]
    ensures EntryAt(a, va, mem', homes, t, entry) && Translate(a, mem', root, va).None? && OtherEntries(a, va, mem, mem', homes, homes)
    ensures forall vb :: !SamePage(a, va, vb) ==> Translate(a, mem', root, vb) == Translate(a, mem, root, vb)
  {
    hide Lawful, Tree, UserVa, Path, LeadsToLeaf, Translate, SamePage, UserPath;
    UserLeaf(a, va);
    LeafStore(a, mem, mem', root, homes, va, t);
    LeafTranslates(a, mem', root, homes, va, t);
    forall vb, u, e | !SamePage(a, va, vb)
      ensures EntryAt(a, vb, mem', homes, u, e) <==> EntryAt(a, vb, mem, homes, u, e)
    {
      SetEntries(a, va, vb, mem, homes, t, entry, u, e);
    }
  }

  lemma LeafTree(a: Arch, mem: Memory, mem': Memory, root: Word, homes: Homes, t: Word)
    requires Tree(a, mem, root, homes) && t in homes && a.levels > 0 && homes[t].level + 1 == a.levels
    requires forall f, j :: f != t ==> Get(mem', f, j) == Get(mem, f, j)
    ensures Tree(a, mem', root, homes)
  {
    SameTablesLinked(a, mem, mem', root, homes);
  }

  lemma PageOfLeaf(a: Arch, va: Word, mem: Memory, homes: Homes, pages: Paths, t: Word)
    requires a.levels > 0 && PagesOk(a, mem, homes, pages) && UserVa(a, va)
    requires t in homes && homes[t] == Place(a.levels - 1, Path(a, va, a.levels - 1)) && a.present(Get(mem, t, a.index(va, a.levels - 1)))
    ensures var f := a.addr(Get(mem, t, a.index(va, a.levels - 1))); f in pages && pages[f] == Path(a, va, a.levels)
  {
    hide Path, UserVa, UserPath;
    UserPathOf(a, va, a.levels - 1);
    PathNext(a, va, a.levels - 1);
  }

  lemma PageBack(a: Arch, mem: Memory, root: Word, homes: Homes, pages: Paths, fr: Frames, fr': Frames, all: set<Word>, frame: Word)
    requires PagesOk(a, mem, homes, pages) && RefsOk(a, homes, pages, fr) && FreshPool(a, fr.pool, homes) && Counted(a, fr, homes)
    requires Accounted(all, root, homes, pages, fr.pool) && frame in pages
    requires fr'.tables == fr.tables && fr'.pool == fr.pool + [frame] && forall g :: fr'.Ref(g) == if g == frame then 0 else fr.Ref(g)
    ensures RefsOk(a, homes, pages - {frame}, fr') && FreshPool(a, fr'.pool, homes) && Counted(a, fr', homes)
  {
    hide PagesOk, UserTables, Frames.Ref;
    PagesApart(a, mem, homes, pages);
    Apart(all, root, homes, pages, fr.pool);
    assert forall f :: f in fr'.pool ==> f == frame || f in fr.pool;
  }

  /** A new user address space, or NoMem when there is no frame for its root. */
  method CreateUserPgdir(a: Arch, kroot: Word, mem: Memory, frames: Frames, ghost khomes: Homes) returns (r: Result<UserSpace>)
    requires Lawful(a) && Tree(a, mem, kroot, khomes) && FreshPool(a, frames.pool, khomes) && Counted(a, frames, khomes)
    requires forall f :: f in frames.pool ==> frames.Ref(f) == 0 && f !in frames.tables
    ensures r.Failure? <==> frames.pool == []
    ensures r.Failure? ==> r.error == NoMem
    ensures r.Success? ==> fresh(r.value) && fresh(r.value.space) && r.value.Valid() && r.value.space.a == a && r.value.pages == map[]
    ensures r.Success? ==> r.value.all == (set f | f in frames.pool) && |r.value.all| == |frames.pool| && Taken(r.value.space.homes, r.value.pages) == {}
    ensures r.Success? ==> forall i: Index :: Get(r.value.space.mem, r.value.space.root, i) == if i < 256 then ZERO else Get(mem, kroot, i)
  {
    if frames.pool == [] {
      return Failure(NoMem);
    }
    var u := new UserSpace(a, kroot, mem, frames, khomes);
    r := Success(u);
  }
}
