/** Device memory mapped into the kernel half: address holes, page tables and their pruning. */
module Mmio {
  import opened Errors
  import opened PageTables
  import opened PageTrees
  import opened AddressSpaces

  // ---- No empty table is left behind ----

  /** No allocated table, except perhaps on the path of `va`, is empty. */
  ghost predicate TidyOff(a: Arch, va: Word, mem: Memory, root: Word, homes: Homes, tables: set<Word>) {
    forall t :: t in homes && t != root && t in tables && !OnPathOf(a, va, homes[t]) ==> !EmptyTable(mem, t)
  }

  ghost predicate TidyOn(a: Arch, va: Word, mem: Memory, root: Word, homes: Homes, tables: set<Word>) {
    forall t :: t in homes && t != root && OnPathOf(a, va, homes[t]) && t in tables ==> !EmptyTable(mem, t)
  }

  ghost predicate Tidy(mem: Memory, root: Word, homes: Homes, tables: set<Word>) {
    forall t :: t in homes && t != root && t in tables ==> !EmptyTable(mem, t)
  }

  lemma SameSlots(a: Arch, va: Word, mem: Memory, mem': Memory, t: Word, p: Place)
    requires !OnPathOf(a, va, p) && forall j :: !Passes(a, va, p, j) ==> Get(mem', t, j) == Get(mem, t, j)
    ensures EmptyTable(mem', t) <==> EmptyTable(mem, t)
  {
  }

  lemma GrowTidy(a: Arch, va: Word, mem: Memory, mem': Memory, root: Word, homes: Homes, homes': Homes, fr: Frames, fr': Frames)
    requires Took(homes, homes', fr, fr')
    requires a.levels > 0 && GrewAlong(a, va, mem, mem', homes, homes', a.levels - 1)
    requires Tidy(mem, root, homes, fr.tables)
    ensures TidyOff(a, va, mem', root, homes', fr'.tables)
  {
    hide EmptyTable, OnPathOf, Passes, Frames.Ref, NoBlocksOn, TablesStay;
    forall t | t in homes' && t != root && t in fr'.tables && !OnPathOf(a, va, homes'[t])
      ensures !EmptyTable(mem', t)
    {
      SameSlots(a, va, mem, mem', t, homes[t]);
    }
  }

  /** A path that leads to a filled leaf slot has no empty table on it. */
  lemma FullPath(a: Arch, va: Word, mem: Memory, root: Word, homes: Homes, tables: set<Word>, leaf: Word)
    requires Lawful(a) && Tree(a, mem, root, homes) && leaf in homes && a.levels > 0
    requires homes[leaf] == Place(a.levels - 1, Path(a, va, a.levels - 1)) && a.present(Get(mem, leaf, a.index(va, a.levels - 1)))
    ensures TidyOn(a, va, mem, root, homes, tables)
  {
    hide Tree, EmptyTable, Lawful, IsTable;
    forall t | t in homes && t != root && OnPathOf(a, va, homes[t])
      ensures !EmptyTable(mem, t)
    {
      LevelBound(a, mem, root, homes, t);
      var k := homes[t].level;
      if k == a.levels - 1 {
        SamePlace(a, mem, root, homes, t, leaf);
        PresentInSlot(a, mem, t, va, k);
      } else if IsTable(a, Get(mem, t, a.index(va, k))) {
        TableInSlot(a, mem, t, va, k);
      } else {
        NoDeeper(a, mem, root, homes, va, t, leaf);
      }
    }
  }

  lemma PresentInSlot(a: Arch, mem: Memory, t: Word, va: Word, l: nat)
    requires Lawful(a) && a.present(Get(mem, t, a.index(va, l)))
    ensures !EmptyTable(mem, t)
  {
  }

  lemma PruneTidy(a: Arch, va: Word, wa: Word, mem: Memory, mem': Memory, root: Word, homes: Homes, homes': Homes, fr: Frames, fr': Frames)
    requires Gave(homes, homes', fr, fr') && OnlyPath(a, va, mem, mem', homes, homes')
    requires TidyOff(a, wa, mem, root, homes, fr.tables) && TidyOn(a, va, mem', root, homes', fr'.tables)
    ensures TidyOff(a, wa, mem', root, homes', fr'.tables)
    ensures va == wa ==> Tidy(mem', root, homes', fr'.tables)
  {
    hide EmptyTable, OnPathOf, Passes, Frames.Ref;
    forall t | t in homes' && t != root && t in fr'.tables && !OnPathOf(a, va, homes'[t])
      ensures EmptyTable(mem', t) <==> EmptyTable(mem, t)
    {
      SameSlots(a, va, mem, mem', t, homes'[t]);
    }
  }

  // ---- Leaf-mapped addresses ----

  /** What the tables on the way to the leaf slot of `va` let through. */
  ghost function Way(a: Arch, mem: Memory, root: Word, va: Word): Rights {
    if a.levels == 0 then ALL else PathRights(a, mem, root, va, 0, a.levels - 1)
  }

  /** Every address that has a leaf slot still has it, and the tables on the way let through what they did. */
  ghost predicate LeavesStay(a: Arch, mem: Memory, mem': Memory, root: Word) {
    forall va :: HasLeaf(a, mem, root, va) ==> HasLeaf(a, mem', root, va) && Way(a, mem', root, va) == Way(a, mem, root, va)
  }

  lemma {:induction false} LeadsStay(a: Arch, mem: Memory, mem': Memory, root: Word, homes: Homes, frame: Word, va: Word,
                                     l: nat, t: Word, m: nat)
    requires Homed(a, mem, root, homes) && frame in homes && homes[frame].level == l && m < a.levels
    requires TablesStay(a, mem, mem', homes) && Leads(a, mem, frame, va, l, t, m)
    ensures Leads(a, mem', frame, va, l, t, m) && PathRights(a, mem', frame, va, l, m) == PathRights(a, mem, frame, va, l, m)
    decreases m - l
  {
    if l < m {
      LeadsStay(a, mem, mem', root, homes, a.addr(Get(mem, frame, a.index(va, l))), va, l + 1, t, m);
    }
  }

  lemma GrowLeaves(a: Arch, va: Word, mem: Memory, mem': Memory, root: Word, homes: Homes, homes': Homes)
    requires Tree(a, mem, root, homes) && a.levels > 0 && GrewAlong(a, va, mem, mem', homes, homes', a.levels - 1)
    ensures LeavesStay(a, mem, mem', root)
  {
    hide Linked, TablesStay, Leads;
    forall vb | HasLeaf(a, mem, root, vb)
      ensures HasLeaf(a, mem', root, vb) && Way(a, mem', root, vb) == Way(a, mem, root, vb)
    {
      var t :| LeadsToLeaf(a, mem, root, vb, 0, t);
      LeadsStay(a, mem, mem', root, homes, root, vb, 0, t, a.levels - 1);
      assert LeadsToLeaf(a, mem', root, vb, 0, t);
    }
  }

  lemma StoreLeaves(a: Arch, mem: Memory, mem': Memory, root: Word, homes: Homes)
    requires Tree(a, mem, root, homes)
    requires forall f, j :: f in homes && homes[f].level + 1 < a.levels ==> Get(mem', f, j) == Get(mem, f, j)
    ensures LeavesStay(a, mem, mem', root)
  {
    hide Linked, Leads;
    forall va | HasLeaf(a, mem, root, va)
      ensures HasLeaf(a, mem', root, va) && Way(a, mem', root, va) == Way(a, mem, root, va)
    {
      var t :| LeadsToLeaf(a, mem, root, va, 0, t);
      LeadsKeeps(a, mem, mem', root, homes, root, va, 0, t, a.levels - 1);
      assert LeadsToLeaf(a, mem', root, va, 0, t);
    }
  }

  lemma LeavesAgain(a: Arch, mem0: Memory, mem: Memory, mem': Memory, root: Word)
    requires LeavesStay(a, mem0, mem, root) && LeavesStay(a, mem, mem', root)
    ensures LeavesStay(a, mem0, mem', root)
  {
  }

  /** While entries are only cleared, a path that still translates is still there. */
  lemma {:induction false} LeadsSurvives(a: Arch, mem: Memory, mem': Memory, root: Word, homes': Homes, frame: Word, va: Word,
                                         l: nat, t: Word, r: Rights)
    requires Lawful(a) && Homed(a, mem', root, homes') && frame in homes' && homes'[frame].level == l < a.levels
    requires forall f, j :: f in homes' ==> Get(mem', f, j) == Get(mem, f, j) || Get(mem', f, j) == ZERO
    requires Leads(a, mem, frame, va, l, t, a.levels - 1) && WalkFrom(a, mem', frame, va, l, r).Some?
    ensures Leads(a, mem', frame, va, l, t, a.levels - 1)
    ensures PathRights(a, mem', frame, va, l, a.levels - 1) == PathRights(a, mem, frame, va, l, a.levels - 1)
    decreases a.levels - l
  {
    hide SplitLaw, PageLaw, TableLaw;
    if l < a.levels - 1 {
      var e := Get(mem', frame, a.index(va, l));
      LeadsSurvives(a, mem, mem', root, homes', a.addr(e), va, l + 1, t, Meet(r, a.tableRights(e)));
    }
  }

  /** An address with a leaf slot that still translates after an unmapping still has its leaf slot. */
  lemma UnmapLeaves(a: Arch, mem: Memory, mem': Memory, root: Word, homes: Homes, homes': Homes, va: Word, vb: Word)
    requires Lawful(a) && Tree(a, mem', root, homes') && OnlyPath(a, va, mem, mem', homes, homes')
    requires HasLeaf(a, mem, root, vb) && Translate(a, mem', root, vb).Some?
    ensures HasLeaf(a, mem', root, vb) && Way(a, mem', root, vb) == Way(a, mem, root, vb)
  {
    hide Linked, Leads, SplitLaw, PageLaw, TableLaw;
    var t :| LeadsToLeaf(a, mem, root, vb, 0, t);
    LeadsSurvives(a, mem, mem', root, homes', root, vb, 0, t, ALL);
    assert LeadsToLeaf(a, mem', root, vb, 0, t);
  }

  /** While entries are only cleared, no new path comes into being. */
  lemma {:induction false} LeadsBefore(a: Arch, mem: Memory, mem': Memory, root: Word, homes': Homes, frame: Word, va: Word, l: nat, t: Word)
    requires Lawful(a) && Homed(a, mem', root, homes') && frame in homes' && homes'[frame].level == l < a.levels
    requires forall f, j :: f in homes' ==> Get(mem', f, j) == Get(mem, f, j) || Get(mem', f, j) == ZERO
    requires Leads(a, mem', frame, va, l, t, a.levels - 1)
    ensures Leads(a, mem, frame, va, l, t, a.levels - 1)
    decreases a.levels - l
  {
    hide SplitLaw, PageLaw, TableLaw;
    if l < a.levels - 1 {
      LeadsBefore(a, mem, mem', root, homes', a.addr(Get(mem', frame, a.index(va, l))), va, l + 1, t);
    }
  }

  lemma NoNewLeaf(a: Arch, mem: Memory, mem': Memory, root: Word, homes: Homes, homes': Homes, va: Word, vb: Word)
    requires Lawful(a) && Tree(a, mem', root, homes') && OnlyPath(a, va, mem, mem', homes, homes') && !HasLeaf(a, mem, root, vb)
    ensures !HasLeaf(a, mem', root, vb)
  {
    hide Linked, Leads, SplitLaw, PageLaw, TableLaw;
    forall t | LeadsToLeaf(a, mem', root, vb, 0, t)
      ensures LeadsToLeaf(a, mem, root, vb, 0, t)
    {
      LeadsBefore(a, mem, mem', root, homes', root, vb, 0, t);
    }
  }

  // ---- Device pages ----

  /** Pages of the 64-bit address space. */
  const PAGES := 0x10_0000_0000_0000

  /** A physical page and the request it is mapped with. */
  datatype Shown = Shown(frame: nat, perm: bv32)

  /** What each page should map to. */
  type Targets = nat -> Option<Shown>

  /** Different device pages have different addresses to the page tables. */
  ghost predicate Faithful(a: Arch, at: nat -> Word, base: nat) {
    forall p, q :: base <= p < PAGES && base <= q < PAGES && SamePage(a, at(p), at(q)) ==> p == q
  }

  /** How each page translated before any device was mapped. */
  type Background = nat -> Option<Translation>

  /** The page of `p` shows physical page `s.frame`: every address in it goes there, with the rights that were asked for as
      far as the tables on the way let them through, and with the memory type that was asked for. */
  ghost predicate ShowsPage(a: Arch, mem: Memory, root: Word, at: nat -> Word, p: nat, s: Shown) {
    forall vb :: SamePage(a, at(p), vb) ==>
      Translate(a, mem, root, vb)
      == Some(Translation(InFrame(at(s.frame), vb), Meet(Way(a, mem, root, at(p)), PermRights(s.perm)), a.memory(s.perm & VM_NOCACHE != 0)))
  }

  /** A device page shows its target, is for the kernel's data only, and was free; any other page translates as it did. */
  ghost predicate Shows(a: Arch, mem: Memory, root: Word, at: nat -> Word, p: nat, was: Option<Translation>, target: Option<Shown>) {
    match target
    case None => Translate(a, mem, root, at(p)) == was
    case Some(s) => was.None? && HasLeaf(a, mem, root, at(p)) && ShowsPage(a, mem, root, at, p, s) && Private(s.perm)
  }

  ghost predicate View(a: Arch, mem: Memory, root: Word, at: nat -> Word, base: nat, bg: Background, tgt: Targets) {
    forall p: nat {:trigger tgt(p)} :: base <= p < PAGES ==> Shows(a, mem, root, at, p, bg(p), tgt(p))
  }

  lemma ViewSame(a: Arch, mem: Memory, mem': Memory, root: Word, at: nat -> Word, base: nat, bg: Background, tgt: Targets)
    requires View(a, mem, root, at, base, bg, tgt) && SameTranslations(a, mem, mem', root) && LeavesStay(a, mem, mem', root)
    ensures View(a, mem', root, at, base, bg, tgt)
  {
    hide HasLeaf, Translate;
    forall p: nat | base <= p < PAGES
      ensures Shows(a, mem', root, at, p, bg(p), tgt(p))
    {
      assert Shows(a, mem, root, at, p, bg(p), tgt(p));
    }
  }

  /** Neither user code nor any instruction fetch gets at such a page. */
  ghost predicate Private(perm: bv32) {
    !PermRights(perm).user && !PermRights(perm).execute
  }

  lemma DevicePerm(perm: bv32)
    requires perm & VM_USER == 0
    ensures Private(perm | VM_NOEXEC)
  {
    assert (perm | 16) & 4 == perm & 4;
    assert (perm | 16) & 16 == 16;
  }

  lemma ViewMapped(a: Arch, mem: Memory, mem': Memory, root: Word, at: nat -> Word, base: nat, bg: Background, tgt: Targets, tgt': Targets,
                   p: nat, q: nat, perm: bv32)
    requires View(a, mem, root, at, base, bg, tgt) && Faithful(a, at, base) && base <= p < PAGES
    requires OnePage(a, mem, mem', root, at(p), at(q), perm) && LeavesStay(a, mem, mem', root) && HasLeaf(a, mem', root, at(p))
    requires tgt'(p) == Some(Shown(q, perm)) && (forall x: nat :: x != p ==> tgt'(x) == tgt(x)) && Private(perm)
    requires tgt(p).None? && Translate(a, mem, root, at(p)).None?
    ensures View(a, mem', root, at, base, bg, tgt')
  {
    hide HasLeaf, Translate, PathRights, PermRights;
    assert SamePage(a, at(p), at(p));
    forall x: nat | base <= x < PAGES
      ensures Shows(a, mem', root, at, x, bg(x), tgt'(x))
    {
      assert Shows(a, mem, root, at, x, bg(x), tgt(x));
    }
  }

  lemma ViewUnmapped(a: Arch, mem: Memory, mem': Memory, root: Word, homes: Homes, homes': Homes, at: nat -> Word, base: nat, bg: Background,
                     tgt: Targets, tgt': Targets, p: nat)
    requires View(a, mem, root, at, base, bg, tgt) && Faithful(a, at, base) && base <= p < PAGES
    requires Lawful(a) && Tree(a, mem', root, homes') && OnlyPath(a, at(p), mem, mem', homes, homes')
    requires forall vb :: !SamePage(a, at(p), vb) ==> Translate(a, mem', root, vb) == Translate(a, mem, root, vb)
    requires Cleared(a, mem, mem', root, at(p))
    requires tgt'(p) == None && forall x: nat :: x != p ==> tgt'(x) == tgt(x)
    requires tgt(p).Some? || !HasLeaf(a, mem, root, at(p))
    ensures View(a, mem', root, at, base, bg, tgt')
  {
    hide HasLeaf, Translate, Lawful, Tree, OnlyPath;
    assert SamePage(a, at(p), at(p));
    forall x: nat | base <= x < PAGES
      ensures Shows(a, mem', root, at, x, bg(x), tgt'(x))
    {
      assert Shows(a, mem, root, at, x, bg(x), tgt(x));
      if x == p {
        ClearedHere(a, mem, mem', root, at(p));
      } else if tgt(x).Some? {
        UnmapLeaves(a, mem, mem', root, homes, homes', at(p), at(x));
      }
    }
  }

  lemma ClearedHere(a: Arch, mem: Memory, mem': Memory, root: Word, va: Word)
    requires Cleared(a, mem, mem', root, va)
    ensures forall vb :: SamePage(a, va, vb) ==>
      if HasLeaf(a, mem, root, va) then Translate(a, mem', root, vb).None? else Translate(a, mem', root, vb) == Translate(a, mem, root, vb)
    ensures if HasLeaf(a, mem, root, va) then Translate(a, mem', root, va).None? else Translate(a, mem', root, va) == Translate(a, mem, root, va)
  {
    hide Translate, LeadsToLeaf;
    assert SamePage(a, va, va);
  }

  /** How the mapping of a page ends: done, without frames for its tables, or at a leaf that is in use. */
  datatype Outcome = Mapped | NoFrames | Occupied

  /** Maps one device page.  A leaf in use is left alone: there the kernel's assertion fails. */
  method MapDevicePage(s: AddressSpace, va: Word, frame: Word, perm: bv32) returns (o: Outcome)
    requires s.Valid() && s.a.isFrame(frame)
    requires Tidy(s.mem, s.root, s.homes, s.frames.tables)
    modifies s
    ensures s.Valid() && LeavesStay(s.a, old(s.mem), s.mem, s.root)
    ensures o == Mapped ==> OnePage(s.a, old(s.mem), s.mem, s.root, va, frame, perm) && HasLeaf(s.a, s.mem, s.root, va)
    ensures o == Mapped ==> Tidy(s.mem, s.root, s.homes, s.frames.tables)
    ensures o != Mapped ==> SameTranslations(s.a, old(s.mem), s.mem, s.root)
    ensures o == NoFrames ==> s.frames.pool == [] && !HasLeaf(s.a, s.mem, s.root, va)
    ensures o == NoFrames ==> TidyOff(s.a, va, s.mem, s.root, s.homes, s.frames.tables)
    ensures o != NoFrames ==> (o == Occupied <==> Translate(s.a, old(s.mem), s.root, va).Some?)
    ensures |old(s.frames.pool)| <= |s.frames.pool| + s.a.levels - 1
  {
    hide GrewAlong, Lawful, Tree, FreshPool, Counted, Took, WalkFrom, Passes, LeadsToLeaf, TablesStay, EmptyTable, Path, TidyOff,
      Tidy, LeavesStay, OnePage;
    ghost var mem0, homes0, frames0 := s.mem, s.homes, s.frames;
    HasLevels(s.a);
    var pte := s.GetPte(va, true);
    GrowTidy(s.a, va, mem0, s.mem, s.root, homes0, s.homes, frames0, s.frames);
    GrowLeaves(s.a, va, mem0, s.mem, s.root, homes0, s.homes);
    if pte.None? {
      return NoFrames;
    }
    var Pte(t, i) := pte.value;
    ghost var mem1 := s.mem;
    LeafTranslates(s.a, mem1, s.root, s.homes, va, t);
    if s.a.present(Get(s.mem, t, i)) {
      return Occupied;
    }
    s.mem := s.mem[(t, i) := s.a.makePage(frame, perm)];
    LeafStore(s.a, mem1, s.mem, s.root, s.homes, va, t);
    PageMapped(s.a, mem0, mem1, s.mem, s.root, s.homes, va, t, frame, perm);
    StoreLeaves(s.a, mem1, s.mem, s.root, s.homes);
    LeavesAgain(s.a, mem0, mem1, s.mem, s.root);
    assert HasLeaf(s.a, s.mem, s.root, va);
    PagePresent(s.a, frame, perm);
    FullPath(s.a, va, s.mem, s.root, s.homes, s.frames.tables, t);
    StoreTidy(s.a, va, mem1, s.mem, s.root, s.homes, s.frames.tables, t);
    return Mapped;
  }

  lemma PagePresent(a: Arch, frame: Word, perm: bv32)
    requires Lawful(a) && a.isFrame(frame)
    ensures a.present(a.makePage(frame, perm))
  {
    assert PageOk(a, frame, perm);
  }

  lemma StoreTidy(a: Arch, va: Word, mem: Memory, mem': Memory, root: Word, homes: Homes, tables: set<Word>, t: Word)
    requires TidyOff(a, va, mem, root, homes, tables) && TidyOn(a, va, mem', root, homes, tables)
    requires t in homes && OnPathOf(a, va, homes[t]) && forall f, j :: f != t ==> Get(mem', f, j) == Get(mem, f, j)
    ensures Tidy(mem', root, homes, tables)
  {
    hide OnPathOf;
    forall u | u in homes && u != root && u in tables
      ensures !EmptyTable(mem', u)
    {
      if !OnPathOf(a, va, homes[u]) {
        assert !EmptyTable(mem, u);
      }
    }
  }

  // ---- Holes between regions ----

  /** A run of device pages, the physical pages it shows, the caller's window into it, and the rights of its pages. */
  datatype Region = Region(first: nat, count: nat, frame: nat, offset: nat, size: nat, perm: bv32)

  function End(r: Region): nat {
    r.first + r.count
  }

  /** Regions are nonempty runs in ascending order, disjoint, above the base and below the top. */
  ghost predicate Sorted(regions: seq<Region>, base: nat) {
    && (forall i :: 0 <= i < |regions| ==> base <= regions[i].first && 0 < regions[i].count && End(regions[i]) < PAGES)
    && forall i, j :: 0 <= i < j < |regions| ==> End(regions[i]) <= regions[j].first
  }

  /** `count` pages from `v` on touch no region. */
  ghost predicate Free(regions: seq<Region>, v: nat, count: nat) {
    forall i :: 0 <= i < |regions| ==> v + count <= regions[i].first || End(regions[i]) <= v
  }

  /** No hole below the end of the address space holds `count` pages. */
  ghost predicate NoRoom(regions: seq<Region>, base: nat, count: nat) {
    forall v: nat :: base <= v && v + count < PAGES ==> !Free(regions, v, count)
  }

  /** The physical page that page `p` should show. */
  function Target(regions: seq<Region>, p: nat): Option<Shown> {
    if regions == [] then None
    else if regions[0].first <= p < End(regions[0]) then Some(Shown(regions[0].frame + (p - regions[0].first), regions[0].perm))
    else Target(regions[1..], p)
  }

  ghost function Wanted(regions: seq<Region>): Targets {
    (p: nat) => Target(regions, p)
  }

  lemma {:induction false} FreeIsUnmapped(regions: seq<Region>, v: nat, count: nat, p: nat)
    requires Free(regions, v, count) && v <= p < v + count
    ensures Target(regions, p) == None
  {
    if regions != [] {
      var rest := regions[1..];
      assert forall i :: 0 <= i < |rest| ==> rest[i] == regions[i + 1];
      assert v + count <= regions[0].first || End(regions[0]) <= v;
      FreeIsUnmapped(rest, v, count, p);
    }
  }

  /** With a region that touches no other, its pages show its frames and all others are as before. */
  lemma {:induction false} TargetInserted(regions: seq<Region>, k: nat, r: Region, p: nat)
    requires k <= |regions| && Free(regions, r.first, r.count)
    ensures Target(regions[..k] + [r] + regions[k..], p)
         == if r.first <= p < End(r) then Some(Shown(r.frame + (p - r.first), r.perm)) else Target(regions, p)
    decreases k
  {
    var all := regions[..k] + [r] + regions[k..];
    if k == 0 {
      assert all[1..] == regions;
    } else {
      var rest := regions[1..];
      assert all[1..] == rest[..k - 1] + [r] + rest[k - 1..];
      assert forall i :: 0 <= i < |rest| ==> rest[i] == regions[i + 1];
      assert r.first + r.count <= regions[0].first || End(regions[0]) <= r.first;
      TargetInserted(rest, k - 1, r, p);
    }
  }

  lemma Between(regions: seq<Region>, base: nat, k: nat, r: Region)
    requires Sorted(regions, base) && k <= |regions| && 0 < r.count
    requires (k > 0 ==> End(regions[k - 1]) <= r.first) && (k < |regions| ==> End(r) <= regions[k].first)
    ensures forall i :: 0 <= i < k ==> End(regions[i]) <= r.first
    ensures forall i :: k <= i < |regions| ==> End(r) <= regions[i].first
  {
  }

  lemma InsertSorted(regions: seq<Region>, base: nat, k: nat, r: Region)
    requires Sorted(regions, base) && k <= |regions| && base <= r.first && 0 < r.count && End(r) < PAGES
    requires (k > 0 ==> End(regions[k - 1]) <= r.first) && (k < |regions| ==> End(r) <= regions[k].first)
    ensures Sorted(regions[..k] + [r] + regions[k..], base) && Free(regions, r.first, r.count)
  {
    Between(regions, base, k, r);
    var all := regions[..k] + [r] + regions[k..];
    forall i | 0 <= i < |all|
      ensures base <= all[i].first && 0 < all[i].count && End(all[i]) < PAGES
    {
      InsertedAt(regions, k, r, i);
    }
    forall i, j | 0 <= i < j < |all|
      ensures End(all[i]) <= all[j].first
    {
      InsertedAt(regions, k, r, i);
      InsertedAt(regions, k, r, j);
    }
  }

  lemma InsertedAt(regions: seq<Region>, k: nat, r: Region, i: nat)
    requires k <= |regions| && i <= |regions|
    ensures (regions[..k] + [r] + regions[k..])[i] == if i < k then regions[i] else if i == k then r else regions[i - 1]
  {
  }

  lemma RemoveSorted(regions: seq<Region>, base: nat, k: nat)
    requires Sorted(regions, base) && k < |regions|
    ensures Sorted(regions[..k] + regions[k + 1..], base)
    ensures Free(regions[..k] + regions[k + 1..], regions[k].first, regions[k].count)
    ensures regions == (regions[..k] + regions[k + 1..])[..k] + [regions[k]] + (regions[..k] + regions[k + 1..])[k..]
  {
  }

  /** First fit: the lowest run of `count` free pages above the base. */
  method FindHole(regions: seq<Region>, base: nat, count: nat) returns (k: nat, first: nat)
    requires Sorted(regions, base) && count > 0
    ensures k <= |regions| && base <= first && Free(regions, first, count)
    ensures (k > 0 ==> End(regions[k - 1]) <= first) && (k < |regions| ==> first + count <= regions[k].first)
    ensures forall v: nat :: base <= v && Free(regions, v, count) ==> first <= v
  {
    k, first := 0, base;
    while k < |regions|
      invariant k <= |regions| && base <= first && first == if k == 0 then base else End(regions[k - 1])
      invariant k < |regions| ==> first <= regions[k].first
      invariant forall v: nat :: base <= v && Free(regions, v, count) ==> first <= v
    {
      if regions[k].first - first >= count {
        break;
      }
      first := End(regions[k]);
      k := k + 1;
    }
    assert forall i :: 0 <= i < k - 1 ==> End(regions[i]) <= regions[k - 1].first;
    assert forall i :: k < i < |regions| ==> End(regions[k]) <= regions[i].first;
  }

  // ---- The allocator ----

  /** Tables that mapping `n` pages takes at most. */
  ghost function Cost(levels: nat, n: nat): nat {
    if n == 0 || levels == 0 then 0 else Cost(levels, n - 1) + levels - 1
  }

  lemma {:induction false} CostGrows(levels: nat, m: nat, n: nat)
    requires m <= n
    ensures Cost(levels, m) <= Cost(levels, n)
    decreases n
  {
    if m < n {
      CostGrows(levels, m, n - 1);
    }
  }

  ghost function Dropped(tgt: Targets, p: nat): Targets {
    (x: nat) => if x == p then None else tgt(x)
  }

  /** None of the `count` pages from `first` on translates. */
  ghost predicate Unused(a: Arch, mem: Memory, root: Word, at: nat -> Word, first: nat, count: nat) {
    forall p: nat {:trigger at(p)} :: first <= p < first + count ==> Translate(a, mem, root, at(p)).None?
  }

  class MmioAllocator {
    const space: AddressSpace       // the kernel's page tables
    const at: nat -> Word           // address of a page, virtual or physical
    const base: nat                 // first device page
    var regions: seq<Region>

    ghost const bg: Background      // how the pages translated at first

    ghost predicate Valid()
      reads this, space
    {
      && space.Valid() && Faithful(space.a, at, base) && Sorted(regions, base)
      && Tidy(space.mem, space.root, space.homes, space.frames.tables)
      && View(space.a, space.mem, space.root, at, base, bg, Wanted(regions))
    }

    /** No device is mapped at first; other pages may be. */
    constructor (space: AddressSpace, at: nat -> Word, base: nat)
      requires space.Valid() && Faithful(space.a, at, base)
      requires Tidy(space.mem, space.root, space.homes, space.frames.tables)
      ensures Valid() && regions == [] && this.space == space && this.at == at && this.base == base
    {
      this.space, this.at, this.base := space, at, base;
      ghost var mem, a, root := space.mem, space.a, space.root;
      bg := (p: nat) => Translate(a, mem, root, at(p));
      regions := [];
    }

    /** Unmaps page `p`, a device page or one without a leaf table. */
    method UnmapOne(p: nat, ghost tgt: Targets, ghost last: Word)
      requires space.Valid() && Faithful(space.a, at, base) && View(space.a, space.mem, space.root, at, base, bg, tgt)
      requires base <= p < PAGES && (tgt(p).Some? || !HasLeaf(space.a, space.mem, space.root, at(p)))
      requires TidyOff(space.a, last, space.mem, space.root, space.homes, space.frames.tables)
      modifies space
      ensures space.Valid() && View(space.a, space.mem, space.root, at, base, bg, Dropped(tgt, p))
      ensures TidyOff(space.a, last, space.mem, space.root, space.homes, space.frames.tables)
      ensures at(p) == last ==> Tidy(space.mem, space.root, space.homes, space.frames.tables)
      ensures forall vb :: !SamePage(space.a, at(p), vb) ==> Translate(space.a, space.mem, space.root, vb) == Translate(space.a, old(space.mem), space.root, vb)
      ensures tgt(p).None? ==> SameTranslations(space.a, old(space.mem), space.mem, space.root)
      ensures !HasLeaf(space.a, old(space.mem), space.root, last) ==> !HasLeaf(space.a, space.mem, space.root, last)
    {
      hide View, Faithful, Tidy, TidyOff, Gave, Cleared, OnlyPath, SamePage, Translate, AddressSpace.Valid, HasLeaf, Lawful, Tree,
        EmptyTable, OnPathOf;
      ghost var mem0, homes0, frames0 := space.mem, space.homes, space.frames;
      space.UnmapPage(at(p));
      SpaceFacts(space);
      ViewUnmapped(space.a, mem0, space.mem, space.root, homes0, space.homes, at, base, bg, tgt, Dropped(tgt, p), p);
      assert TidyOn(space.a, at(p), space.mem, space.root, space.homes, space.frames.tables);
      PruneTidy(space.a, at(p), last, mem0, space.mem, space.root, homes0, space.homes, frames0, space.frames);
      ClearedHere(space.a, mem0, space.mem, space.root, at(p));
      if !HasLeaf(space.a, mem0, space.root, last) {
        NoNewLeaf(space.a, mem0, space.mem, space.root, homes0, space.homes, at(p), last);
      }
    }

    /** Unmaps `count` pages from `first` on: device pages, of which the last may have been left
        without a leaf table. */
    method Unmap(first: nat, count: nat, ghost tgt: Targets) returns (ghost tgt': Targets)
      requires space.Valid() && Faithful(space.a, at, base) && View(space.a, space.mem, space.root, at, base, bg, tgt)
      requires base <= first && 0 < count && first + count <= PAGES
      requires forall x: nat :: first <= x < first + count - 1 ==> tgt(x).Some?
      requires tgt(first + count - 1).Some? || !HasLeaf(space.a, space.mem, space.root, at(first + count - 1))
      requires TidyOff(space.a, at(first + count - 1), space.mem, space.root, space.homes, space.frames.tables)
      modifies space
      ensures space.Valid() && View(space.a, space.mem, space.root, at, base, bg, tgt')
      ensures forall x: nat :: tgt'(x) == if first <= x < first + count then None else tgt(x)
      ensures Tidy(space.mem, space.root, space.homes, space.frames.tables)
      ensures SameOff(space.a, old(space.mem), space.mem, space.root, at, first, if tgt(first + count - 1).Some? then count else count - 1)
    {
      hide View, Faithful, Tidy, TidyOff, SamePage, Translate, AddressSpace.Valid, SameOff, HasLeaf, OffRun, SameTranslations;
      var j := 0;
      tgt' := tgt;
      ghost var last := at(first + count - 1);
      SameOffStart(space.a, space.mem, space.root, at, first);
      while j < count
        invariant j <= count && space.Valid() && View(space.a, space.mem, space.root, at, base, bg, tgt')
        invariant forall x: nat :: tgt'(x) == if first <= x < first + j then None else tgt(x)
        invariant j < count ==> TidyOff(space.a, last, space.mem, space.root, space.homes, space.frames.tables)
        invariant j == count ==> Tidy(space.mem, space.root, space.homes, space.frames.tables)
        invariant j < count ==> tgt(first + count - 1).Some? || !HasLeaf(space.a, space.mem, space.root, last)
        invariant SameOff(space.a, old(space.mem), space.mem, space.root, at, first, if j < count || tgt(first + count - 1).Some? then j else count - 1)
      {
        ghost var mem0 := space.mem;
        UnmapOne(first + j, tgt', last);
        if tgt(first + j).Some? {
          SameOffNext(space.a, old(space.mem), mem0, space.mem, space.root, at, first, j);
        } else {
          SameOffKeeps(space.a, old(space.mem), mem0, space.mem, space.root, at, first, j);
        }
        tgt' := Dropped(tgt', first + j);
        j := j + 1;
      }
    }

    /** Maps `count` pages from `first` on to the physical pages from `frame` on.  Without frames
        everything is taken back; at a page in use the kernel stops. */
    method MapPages(first: nat, count: nat, frame: nat, perm: bv32) returns (o: Outcome)
      requires Valid() && base <= first && 0 < count && first + count < PAGES && Free(regions, first, count)
      requires Private(perm) && forall x: nat :: frame <= x < frame + count ==> space.a.isFrame(at(x))
      modifies space
      ensures space.Valid()
      ensures o != Occupied ==> Tidy(space.mem, space.root, space.homes, space.frames.tables)
      ensures o == Mapped ==> View(space.a, space.mem, space.root, at, base, bg, MappedRun(Wanted(regions), first, count, Shown(frame, perm)))
      ensures o != NoFrames ==> SameOff(space.a, old(space.mem), space.mem, space.root, at, first, count)
      ensures o == NoFrames ==> View(space.a, space.mem, space.root, at, base, bg, Wanted(regions))
      ensures o == NoFrames ==> SameTranslations(space.a, old(space.mem), space.mem, space.root)
      ensures o == NoFrames ==> |old(space.frames.pool)| <= Cost(space.a.levels, count)
      ensures o != NoFrames ==> (o == Mapped <==> Unused(space.a, old(space.mem), space.root, at, first, count))
    {
      hide View, Faithful, Tidy, TidyOff, Private, OnePage, SamePage, Translate, AddressSpace.Valid, Free, Sorted, Wanted, SameOff,
        SameTranslations, LeavesStay, HasLeaf, MappedRun;
      var j := 0;
      RunStart(space.a, space.mem, space.root, at, base, bg, Wanted(regions), first, frame, perm);
      while j < count
        invariant j <= count && space.Valid() && Tidy(space.mem, space.root, space.homes, space.frames.tables)
        invariant View(space.a, space.mem, space.root, at, base, bg, MappedRun(Wanted(regions), first, j, Shown(frame, perm)))
        invariant SameOff(space.a, old(space.mem), space.mem, space.root, at, first, j)
        invariant |old(space.frames.pool)| <= |space.frames.pool| + Cost(space.a.levels, j)
        invariant Unused(space.a, old(space.mem), space.root, at, first, j)
      {
        CostGrows(space.a.levels, j + 1, count);
        ghost var mem0 := space.mem;
        ghost var tgt := MappedRun(Wanted(regions), first, j, Shown(frame, perm));
        PageAsBefore(space.a, old(space.mem), space.mem, space.root, at, base, bg, regions, first, count, j, frame, perm);
        o := MapDevicePage(space, at(first + j), at(frame + j), perm);
        if o == NoFrames {
          ViewSame(space.a, mem0, space.mem, space.root, at, base, bg, tgt);
          SameOffKeeps(space.a, old(space.mem), mem0, space.mem, space.root, at, first, j);
          ghost var mem1 := space.mem;
          RunTargets(Wanted(regions), first, j, frame, perm);
          ghost var tgt' := Unmap(first, j + 1, tgt);
          SpaceFacts(space);
          RunUndone(space.a, old(space.mem), mem1, space.mem, space.root, at, base, bg, regions, tgt', first, count, frame, perm, j);
          return;
        }
        if o == Occupied {
          SameOffKeeps(space.a, old(space.mem), mem0, space.mem, space.root, at, first, j);
          SameOffMore(space.a, old(space.mem), space.mem, space.root, at, first, j, count);
          return;
        }
        RunNext(space.a, mem0, space.mem, space.root, at, base, bg, Wanted(regions), first, j, frame, perm);
        SameOffMapped(space.a, old(space.mem), mem0, space.mem, space.root, at, first, j, at(frame + j), perm);
        j := j + 1;
      }
      return Mapped;
    }

    /** Maps `size` bytes of device memory at `pa`.  The window is refused if it is empty, if users
        could reach it, or if it does not fit the address space; otherwise it takes the lowest
        hole that holds it. */
    method Map(pa: nat, size: nat, perm: bv32, haveRecord: bool) returns (r: Result<Region>, stopped: bool, ghost hole: nat)
      requires Valid() && pa < BYTES && size < BYTES
      requires forall x: nat :: pa / 4096 <= x <= (pa + size) / 4096 ==> space.a.isFrame(at(x))
      modifies this, space
      ensures !stopped ==> Valid()
      ensures r == Failure(Invalid) <==> size == 0 || perm & 4 != 0 || pa + size > 0xFFFF_FFFF_FFFF_F000
      ensures r.Failure? ==> regions == old(regions)
      ensures r.Failure? && !stopped ==> r.error in {Invalid, NoMem} && SameTranslations(space.a, old(space.mem), space.mem, space.root)
      ensures r == Failure(NoMem) ==> !haveRecord || NoRoom(regions, base, Span(pa, size) / 4096)
                                      || |old(space.frames.pool)| <= Cost(space.a.levels, Span(pa, size) / 4096)
      ensures stopped ==> r == Failure(Exists)
      ensures stopped || r.Success? ==>
                && haveRecord && WindowOk(pa, size, perm) && LowestHole(old(regions), base, hole, Span(pa, size) / 4096)
                && (stopped <==> !Unused(space.a, old(space.mem), space.root, at, hole, Span(pa, size) / 4096))
                && SameOff(space.a, old(space.mem), space.mem, space.root, at, hole, Span(pa, size) / 4096)
      ensures r.Success? ==> Covers(r.value, pa, size) && r.value.first == hole && r.value.count == Span(pa, size) / 4096
      ensures r.Success? ==> exists k :: Inserted(old(regions), regions, k, r.value)
      ensures r.Success? ==> forall i: nat :: i < r.value.count ==> WindowAt(space.a, space.mem, space.root, at, hole, pa / 4096, i, perm)
    {
      hide View, Faithful, Tidy, SamePage, Translate, AddressSpace.Valid, Sorted, Wanted, SameOff, Free, Private, Unused, DevicePage;
      NoChange(space.a, at(0), space.mem, space.root, space.homes);
      WindowMeans(pa, size, perm);
      stopped, hole := false, 0;
      if !WindowOk(pa, size, perm) {
        return Failure(Invalid), stopped, hole;
      }
      if !haveRecord {
        return Failure(NoMem), stopped, hole;
      }
      var count := Span(pa, size) / 4096;
      SpanPages(pa, size);
      var k, first := FindHole(regions, base, count);
      hole := first;
      if first + count >= PAGES {
        assert NoRoom(regions, base, count);
        return Failure(NoMem), stopped, hole;
      }
      DevicePerm(perm);
      var frame := pa / 4096;
      var o := MapPages(first, count, frame, perm | VM_NOEXEC);
      if o == NoFrames {
        return Failure(NoMem), stopped, hole;
      }
      if o == Occupied {
        return Failure(Exists), true, hole;
      }
      var region := Region(first, count, frame, pa % 4096, size, perm | VM_NOEXEC);
      InsertSorted(regions, base, k, region);
      ViewInserted(space.a, space.mem, space.root, at, base, bg, regions, k, region);
      regions := regions[..k] + [region] + regions[k..];
      assert Inserted(old(regions), regions, k, region);
      WindowPages(space.a, space.mem, space.root, at, base, bg, old(regions), k, region, perm);
      r := Success(region);
    }

    /** Gives up the `k`-th region. */
    method Release(k: nat)
      requires Valid() && k < |regions|
      modifies this, space
      ensures Valid() && regions == old(regions)[..k] + old(regions)[k + 1..]
      ensures SameOff(space.a, old(space.mem), space.mem, space.root, at, old(regions)[k].first, old(regions)[k].count)
    {
      hide View, Faithful, Tidy, SamePage, Translate, AddressSpace.Valid, SameOff, Free;
      var r := regions[k];
      ghost var tgt := Wanted(regions);
      RemoveSorted(regions, base, k);
      assert TidyOff(space.a, at(r.first + r.count - 1), space.mem, space.root, space.homes, space.frames.tables) by {
        TidyEverywhere(space.a, at(r.first + r.count - 1), space.mem, space.root, space.homes, space.frames.tables);
      }
      RegionTargets(regions, base, k);
      regions := regions[..k] + regions[k + 1..];
      ghost var tgt' := Unmap(r.first, r.count, tgt);
      ViewRemoved(space.a, space.mem, space.root, at, base, bg, old(regions), regions, k, tgt');
    }
  }

  /** Bytes of the 64-bit address space. */
  const BYTES := 0x1_0000_0000_0000_0000

  /** Bytes of the pages that hold the window. */
  function Span(pa: nat, size: nat): nat {
    (size + pa % 4096 + 4095) / 4096 * 4096
  }

  predicate WindowOk(pa: nat, size: nat, perm: bv32) {
    && size != 0 && perm & VM_USER == 0
    && size + pa % 4096 < BYTES && size + pa % 4096 + 4095 < BYTES
    && pa - pa % 4096 + Span(pa, size) < BYTES
  }

  /** A window is in order if it is not empty, not for users, and its last page is not the last of the address space. */
  lemma WindowMeans(pa: nat, size: nat, perm: bv32)
    requires pa < BYTES && size < BYTES
    ensures WindowOk(pa, size, perm) <==> size > 0 && perm & 4 == 0 && pa + size <= 0xFFFF_FFFF_FFFF_F000
  {
    var off, n := pa % 4096, (size + pa % 4096 + 4095) / 4096;
    assert pa == 4096 * (pa / 4096) + off;
    assert Span(pa, size) == 4096 * n && 4096 * (n - 1) < size + off <= 4096 * n;
  }

  /** The region's frames hold exactly the pages the window touches. */
  ghost predicate Covers(r: Region, pa: nat, size: nat) {
    && r.offset == pa % 4096 && r.size == size && 4096 * r.frame + r.offset == pa
    && 4096 * (r.count - 1) < r.offset + size <= 4096 * r.count
  }

  /** Device pages from `first` on are free, and no lower run of `count` pages is. */
  ghost predicate LowestHole(regions: seq<Region>, base: nat, first: nat, count: nat) {
    && base <= first && first + count < PAGES && Free(regions, first, count)
    && forall v: nat :: base <= v && Free(regions, v, count) ==> first <= v
  }

  ghost predicate Inserted(regions: seq<Region>, regions': seq<Region>, k: nat, r: Region) {
    k <= |regions| && regions' == regions[..k] + [r] + regions[k..]
  }

  /** Every address in the page of `va` goes to frame `f`.  User code and instruction fetches never get there; it can be
      written if that was asked for and the tables on the way let writes through; it is cached as was asked for. */
  ghost predicate DevicePage(a: Arch, mem: Memory, root: Word, va: Word, f: Word, perm: bv32) {
    forall vb :: SamePage(a, va, vb) ==>
      && Translate(a, mem, root, vb).Some?
      && var t := Translate(a, mem, root, vb).value;
         && t.pa == InFrame(f, vb) && !t.rights.user && !t.rights.execute
         && (t.rights.write <==> Way(a, mem, root, va).write && perm & 2 != 0)
         && t.cache == a.memory(perm & 8 != 0)
  }

  /** Page `i` of a window that starts at page `first` shows the `i`-th page of the device memory. */
  ghost predicate WindowAt(a: Arch, mem: Memory, root: Word, at: nat -> Word, first: nat, frame: nat, i: nat, perm: bv32) {
    DevicePage(a, mem, root, at(first + i), at(frame + i), perm)
  }

  lemma NoExecKeeps(perm: bv32)
    ensures (perm | 16) & 2 == perm & 2 && (perm | 16) & 8 == perm & 8
  {
  }

  lemma WindowPages(a: Arch, mem: Memory, root: Word, at: nat -> Word, base: nat, bg: Background, regions: seq<Region>, k: nat, r: Region, perm: bv32)
    requires k <= |regions| && Free(regions, r.first, r.count) && base <= r.first && End(r) < PAGES && r.perm == perm | VM_NOEXEC
    requires View(a, mem, root, at, base, bg, Wanted(regions[..k] + [r] + regions[k..]))
    ensures forall i: nat :: i < r.count ==> WindowAt(a, mem, root, at, r.first, r.frame, i, perm)
  {
    hide Translate, HasLeaf, SamePage, Free, Way, Target;
    NoExecKeeps(perm);
    var tgt := Wanted(regions[..k] + [r] + regions[k..]);
    forall i: nat | i < r.count
      ensures WindowAt(a, mem, root, at, r.first, r.frame, i, perm)
    {
      TargetInserted(regions, k, r, r.first + i);
      assert tgt(r.first + i) == Some(Shown(r.frame + i, r.perm));
    }
  }

  lemma SpanPages(pa: nat, size: nat)
    requires size > 0
    ensures var n := Span(pa, size) / 4096;
      n > 0 && 4096 * (n - 1) < pa % 4096 + size <= 4096 * n && pa / 4096 + n - 1 <= (pa + size) / 4096
  {
    var n := (size + pa % 4096 + 4095) / 4096;
    assert Span(pa, size) == n * 4096;
    assert 4096 * (pa / 4096) + pa % 4096 == pa;
  }

  lemma TidyEverywhere(a: Arch, va: Word, mem: Memory, root: Word, homes: Homes, tables: set<Word>)
    requires Tidy(mem, root, homes, tables)
    ensures TidyOff(a, va, mem, root, homes, tables)
  {
  }

  lemma ViewInserted(a: Arch, mem: Memory, root: Word, at: nat -> Word, base: nat, bg: Background, regions: seq<Region>, k: nat, r: Region)
    requires k <= |regions| && Free(regions, r.first, r.count)
    requires View(a, mem, root, at, base, bg, MappedRun(Wanted(regions), r.first, r.count, Shown(r.frame, r.perm)))
    ensures View(a, mem, root, at, base, bg, Wanted(regions[..k] + [r] + regions[k..]))
  {
    hide Shows, Free;
    var tgt, tgt' := MappedRun(Wanted(regions), r.first, r.count, Shown(r.frame, r.perm)), Wanted(regions[..k] + [r] + regions[k..]);
    forall p: nat | base <= p < PAGES
      ensures Shows(a, mem, root, at, p, bg(p), tgt'(p))
    {
      TargetInserted(regions, k, r, p);
      assert tgt'(p) == tgt(p);
    }
  }

  lemma ViewRemoved(a: Arch, mem: Memory, root: Word, at: nat -> Word, base: nat, bg: Background, regions: seq<Region>, regions': seq<Region>,
                    k: nat, tgt: Targets)
    requires k <= |regions'| && k < |regions| && Free(regions', regions[k].first, regions[k].count)
    requires regions == regions'[..k] + [regions[k]] + regions'[k..]
    requires View(a, mem, root, at, base, bg, tgt)
    requires forall x: nat :: tgt(x) == if regions[k].first <= x < End(regions[k]) then None else Target(regions, x)
    ensures View(a, mem, root, at, base, bg, Wanted(regions'))
  {
    hide Shows, Free;
    var tgt', r := Wanted(regions'), regions[k];
    forall p: nat | base <= p < PAGES
      ensures Shows(a, mem, root, at, p, bg(p), tgt'(p))
    {
      TargetInserted(regions', k, r, p);
      if r.first <= p < End(r) {
        FreeIsUnmapped(regions', r.first, r.count, p);
      }
      assert tgt'(p) == tgt(p);
    }
  }

  /** The pages of a run show consecutive frames. */
  ghost function MappedRun(tgt: Targets, first: nat, count: nat, s: Shown): Targets {
    (x: nat) => if first <= x < first + count then Some(Shown(s.frame + (x - first), s.perm)) else tgt(x)
  }

  lemma RunStart(a: Arch, mem: Memory, root: Word, at: nat -> Word, base: nat, bg: Background, tgt: Targets, first: nat, frame: nat, perm: bv32)
    requires View(a, mem, root, at, base, bg, tgt)
    ensures View(a, mem, root, at, base, bg, MappedRun(tgt, first, 0, Shown(frame, perm))) && SameOff(a, mem, mem, root, at, first, 0)
  {
    hide Shows;
    var tgt' := MappedRun(tgt, first, 0, Shown(frame, perm));
    forall p: nat | base <= p < PAGES
      ensures Shows(a, mem, root, at, p, bg(p), tgt'(p))
    {
      assert tgt'(p) == tgt(p);
    }
  }

  /** A page that is still to be mapped translates as it did before the call. */
  lemma RunTargets(wanted: Targets, first: nat, j: nat, frame: nat, perm: bv32)
    ensures forall x: nat :: first <= x < first + j ==> MappedRun(wanted, first, j, Shown(frame, perm))(x).Some?
  {
  }

  /** One page more of a run. */
  lemma RunNext(a: Arch, mem: Memory, mem': Memory, root: Word, at: nat -> Word, base: nat, bg: Background, wanted: Targets, first: nat, j: nat,
                frame: nat, perm: bv32)
    requires View(a, mem, root, at, base, bg, MappedRun(wanted, first, j, Shown(frame, perm))) && Faithful(a, at, base) && base <= first + j < PAGES
    requires OnePage(a, mem, mem', root, at(first + j), at(frame + j), perm) && LeavesStay(a, mem, mem', root) && HasLeaf(a, mem', root, at(first + j))
    requires Private(perm) && MappedRun(wanted, first, j, Shown(frame, perm))(first + j) == None && Translate(a, mem, root, at(first + j)).None?
    ensures View(a, mem', root, at, base, bg, MappedRun(wanted, first, j + 1, Shown(frame, perm)))
  {
    hide View, Faithful, OnePage, LeavesStay, HasLeaf, Private, Translate;
    var shown := Shown(frame, perm);
    ViewMapped(a, mem, mem', root, at, base, bg, MappedRun(wanted, first, j, shown), MappedRun(wanted, first, j + 1, shown), first + j, frame + j, perm);
  }

  lemma PageAsBefore(a: Arch, mem0: Memory, mem: Memory, root: Word, at: nat -> Word, base: nat, bg: Background, regions: seq<Region>,
                     first: nat, count: nat, j: nat, frame: nat, perm: bv32)
    requires Free(regions, first, count) && base <= first && j < count && first + count < PAGES
    requires View(a, mem0, root, at, base, bg, Wanted(regions))
    requires View(a, mem, root, at, base, bg, MappedRun(Wanted(regions), first, j, Shown(frame, perm)))
    ensures MappedRun(Wanted(regions), first, j, Shown(frame, perm))(first + j) == None
    ensures Translate(a, mem, root, at(first + j)) == Translate(a, mem0, root, at(first + j))
  {
    hide Translate, HasLeaf;
    FreeIsUnmapped(regions, first, count, first + j);
    var tgt, tgt0 := MappedRun(Wanted(regions), first, j, Shown(frame, perm)), Wanted(regions);
    assert tgt(first + j) == None && tgt0(first + j) == None;
  }

  /** The pages of a region show it. */
  lemma RegionTargets(regions: seq<Region>, base: nat, k: nat)
    requires Sorted(regions, base) && k < |regions|
    ensures forall x: nat :: regions[k].first <= x < End(regions[k]) ==> Target(regions, x).Some?
  {
    RemoveSorted(regions, base, k);
    var rest := regions[..k] + regions[k + 1..];
    forall x: nat | regions[k].first <= x < End(regions[k])
      ensures Target(regions, x).Some?
    {
      TargetInserted(rest, k, regions[k], x);
    }
  }

  lemma SameOffStart(a: Arch, mem: Memory, root: Word, at: nat -> Word, first: nat)
    ensures SameOff(a, mem, mem, root, at, first, 0)
  {
  }

  lemma SameOffMore(a: Arch, mem0: Memory, mem: Memory, root: Word, at: nat -> Word, first: nat, j: nat, count: nat)
    requires SameOff(a, mem0, mem, root, at, first, j) && j <= count
    ensures SameOff(a, mem0, mem, root, at, first, count)
  {
    hide Translate, SamePage;
    forall vb | OffRun(a, at, first, count, vb)
      ensures OffRun(a, at, first, j, vb)
    {
    }
  }

  lemma SameOffKeeps(a: Arch, mem0: Memory, mem: Memory, mem': Memory, root: Word, at: nat -> Word, first: nat, j: nat)
    requires SameOff(a, mem0, mem, root, at, first, j) && SameTranslations(a, mem, mem', root)
    ensures SameOff(a, mem0, mem', root, at, first, j)
  {
    hide Translate, OffRun;
  }

  lemma SameOffMapped(a: Arch, mem0: Memory, mem: Memory, mem': Memory, root: Word, at: nat -> Word, first: nat, j: nat, frame: Word, perm: bv32)
    requires SameOff(a, mem0, mem, root, at, first, j) && OnePage(a, mem, mem', root, at(first + j), frame, perm)
    ensures SameOff(a, mem0, mem', root, at, first, j + 1)
  {
    hide Translate, OffRun, SameOff, SamePage;
    SameOffNext(a, mem0, mem, mem', root, at, first, j);
  }

  lemma {:induction false} SamePageWalk(a: Arch, mem: Memory, frame: Word, va: Word, vb: Word, l: nat, r: Rights)
    requires forall k: nat :: k < a.levels ==> a.index(va, k) == a.index(vb, k)
    ensures WalkFrom(a, mem, frame, va, l, r).None? <==> WalkFrom(a, mem, frame, vb, l, r).None?
    decreases a.levels - l
  {
    if l < a.levels {
      assert a.index(va, l) == a.index(vb, l);
      var e := Get(mem, frame, a.index(va, l));
      if a.present(e) && !(l == a.levels - 1 || a.isBlock(e)) {
        SamePageWalk(a, mem, a.addr(e), va, vb, l + 1, Meet(r, a.tableRights(e)));
      }
    }
  }

  lemma SamePageNone(a: Arch, mem: Memory, root: Word, va: Word, vb: Word)
    requires a.levels > 0 && SamePage(a, va, vb) && Translate(a, mem, root, va).None?
    ensures Translate(a, mem, root, vb).None?
  {
    LeafPage(a, va, vb);
    SamePageWalk(a, mem, root, va, vb, 0, ALL);
  }

  /** Taking back a partly mapped run restores every translation. */
  lemma RunUndone(a: Arch, mem0: Memory, mem: Memory, mem': Memory, root: Word, at: nat -> Word, base: nat, bg: Background, regions: seq<Region>,
                  tgt': Targets, first: nat, count: nat, frame: nat, perm: bv32, j: nat)
    requires a.levels > 0 && base <= first && j < count && first + count < PAGES && Free(regions, first, count)
    requires View(a, mem0, root, at, base, bg, Wanted(regions)) && View(a, mem', root, at, base, bg, tgt')
    requires forall x: nat :: tgt'(x) == if first <= x < first + (j + 1) then None else MappedRun(Wanted(regions), first, j, Shown(frame, perm))(x)
    requires SameOff(a, mem0, mem, root, at, first, j) && SameOff(a, mem, mem', root, at, first, j)
    requires View(a, mem, root, at, base, bg, MappedRun(Wanted(regions), first, j, Shown(frame, perm)))
    ensures View(a, mem', root, at, base, bg, Wanted(regions)) && SameTranslations(a, mem0, mem', root)
  {
    hide Translate, HasLeaf, SamePage, Free;
    var tgt := Wanted(regions);
    forall x: nat | base <= x < PAGES
      ensures Shows(a, mem', root, at, x, bg(x), tgt(x))
    {
      if first <= x < first + (j + 1) {
        FreeIsUnmapped(regions, first, count, x);
      }
      assert tgt'(x) == tgt(x);
    }
    forall vb
      ensures Translate(a, mem', root, vb) == Translate(a, mem0, root, vb)
    {
      if !OffRun(a, at, first, j, vb) {
        var p: nat :| first <= p < first + j && SamePage(a, at(p), vb);
        FreeIsUnmapped(regions, first, count, p);
        var run := MappedRun(Wanted(regions), first, j, Shown(frame, perm));
        assert run(p).Some? && tgt(p) == None && tgt'(p) == None;
        SamePageNone(a, mem0, root, at(p), vb);
        SamePageNone(a, mem', root, at(p), vb);
      }
    }
  }

  lemma SpaceFacts(s: AddressSpace)
    requires s.Valid()
    ensures s.a.levels > 0 && Lawful(s.a) && Tree(s.a, s.mem, s.root, s.homes)
  {
  }

  /** The address lies in none of the `count` pages from `first` on. */
  ghost predicate OffRun(a: Arch, at: nat -> Word, first: nat, count: nat, vb: Word) {
    forall p: nat :: first <= p < first + count ==> !SamePage(a, at(p), vb)
  }

  /** Every address off the run translates as before. */
  ghost predicate SameOff(a: Arch, mem: Memory, mem': Memory, root: Word, at: nat -> Word, first: nat, count: nat) {
    forall vb :: OffRun(a, at, first, count, vb) ==> Translate(a, mem', root, vb) == Translate(a, mem, root, vb)
  }

  lemma SameOffNext(a: Arch, mem0: Memory, mem: Memory, mem': Memory, root: Word, at: nat -> Word, first: nat, j: nat)
    requires SameOff(a, mem0, mem, root, at, first, j)
    requires forall vb :: !SamePage(a, at(first + j), vb) ==> Translate(a, mem', root, vb) == Translate(a, mem, root, vb)
    ensures SameOff(a, mem0, mem', root, at, first, j + 1)
  {
    hide Translate, SamePage;
    forall vb | OffRun(a, at, first, j + 1, vb)
      ensures Translate(a, mem', root, vb) == Translate(a, mem0, root, vb)
    {
      assert OffRun(a, at, first, j, vb);
      assert !SamePage(a, at(first + j), vb);
    }
  }
}
