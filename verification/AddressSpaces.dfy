/** Walking, growing and filling an address space. */
module AddressSpaces {
  import opened Errors
  import opened PageTables
  import opened PageTrees
  import opened Sequences

  /** The allocator hands out distinct frames that are in no tree. */
  ghost predicate FreshPool(a: Arch, pool: seq<Word>, homes: Homes) {
    && NoRepeat(pool)
    && forall f :: f in pool ==> a.isFrame(f) && f !in homes
  }

  /** The tables taken from the allocator are frames with one reference. */
  ghost predicate Counted(a: Arch, fr: Frames, homes: Homes) {
    forall t :: t in fr.tables && t in homes ==> a.isFrame(t) && fr.Ref(t) == 1
  }

  /** Table `t` sits at level `m` on the path of `va` below `frame`. */
  ghost predicate Leads(a: Arch, mem: Memory, frame: Word, va: Word, l: nat, t: Word, m: nat)
    decreases m - l
  {
    if l >= m then l == m && frame == t
    else
      var e := Get(mem, frame, a.index(va, l));
      IsTable(a, e) && Leads(a, mem, a.addr(e), va, l + 1, t, m)
  }

  /** `t` is the leaf table on the path of `va` below `frame`. */
  ghost predicate LeadsToLeaf(a: Arch, mem: Memory, frame: Word, va: Word, l: nat, t: Word) {
    a.levels > 0 && Leads(a, mem, frame, va, l, t, a.levels - 1)
  }

  /** There is a leaf table for `va`. */
  ghost predicate HasLeaf(a: Arch, mem: Memory, root: Word, va: Word) {
    exists t :: LeadsToLeaf(a, mem, root, va, 0, t)
  }

  /** With a leaf table to get to, the walk goes on from every table before it. */
  lemma LeafAhead(a: Arch, mem: Memory, root: Word, va: Word, t: Word, m: nat)
    requires m + 1 < a.levels && Leads(a, mem, root, va, 0, t, m)
    ensures HasLeaf(a, mem, root, va) ==> IsTable(a, Get(mem, t, a.index(va, m)))
  {
    if !IsTable(a, Get(mem, t, a.index(va, m))) {
      LeadsStops(a, mem, root, va, 0, t, m);
    }
  }

  lemma NoLeaf(a: Arch, mem: Memory, root: Word, va: Word)
    requires forall t :: !LeadsToLeaf(a, mem, root, va, 0, t)
    ensures !HasLeaf(a, mem, root, va)
  {
  }

  lemma LeafThere(a: Arch, mem: Memory, root: Word, va: Word, t: Word)
    requires a.levels > 0 && Leads(a, mem, root, va, 0, t, a.levels - 1)
    ensures LeadsToLeaf(a, mem, root, va, 0, t)
  {
  }

  /** The rights the table entries between levels `l` and `m` on the path of `va` let through. */
  ghost function PathRights(a: Arch, mem: Memory, frame: Word, va: Word, l: nat, m: nat): Rights
    decreases m - l
  {
    if l >= m then ALL
    else
      var e := Get(mem, frame, a.index(va, l));
      Meet(a.tableRights(e), PathRights(a, mem, a.addr(e), va, l + 1, m))
  }

  lemma {:induction false} LeadsOn(a: Arch, mem: Memory, frame: Word, va: Word, l: nat, t: Word, m: nat)
    requires Leads(a, mem, frame, va, l, t, m) && IsTable(a, Get(mem, t, a.index(va, m)))
    ensures Leads(a, mem, frame, va, l, a.addr(Get(mem, t, a.index(va, m))), m + 1)
    decreases m - l
  {
    if l < m {
      LeadsOn(a, mem, a.addr(Get(mem, frame, a.index(va, l))), va, l + 1, t, m);
    }
  }

  /** The walk from above is the walk from `t` with the rights let through so far. */
  lemma {:induction false} LeadsWalk(a: Arch, mem: Memory, frame: Word, va: Word, l: nat, t: Word, m: nat, r: Rights)
    requires l <= m < a.levels && Leads(a, mem, frame, va, l, t, m)
    ensures WalkFrom(a, mem, frame, va, l, r) == WalkFrom(a, mem, t, va, m, Meet(r, PathRights(a, mem, frame, va, l, m)))
    decreases m - l
  {
    if l < m {
      var e := Get(mem, frame, a.index(va, l));
      LeadsWalk(a, mem, a.addr(e), va, l + 1, t, m, Meet(r, a.tableRights(e)));
    }
  }

  /** Tables at level `m` and below may change without the path down to level `m` changing. */
  lemma {:induction false} LeadsKeeps(a: Arch, mem: Memory, mem': Memory, root: Word, homes: Homes, frame: Word, va: Word,
                                      l: nat, t: Word, m: nat)
    requires Homed(a, mem, root, homes) && frame in homes && homes[frame].level == l && m < a.levels
    requires forall f, j :: f in homes && homes[f].level < m ==> Get(mem', f, j) == Get(mem, f, j)
    requires Leads(a, mem, frame, va, l, t, m)
    ensures Leads(a, mem', frame, va, l, t, m)
    ensures PathRights(a, mem', frame, va, l, m) == PathRights(a, mem, frame, va, l, m)
    decreases m - l
  {
    if l < m {
      var e := Get(mem, frame, a.index(va, l));
      LeadsKeeps(a, mem, mem', root, homes, a.addr(e), va, l + 1, t, m);
    }
  }

  /** `va` and `vb` lie in the same page: every index agrees. */
  ghost predicate SamePage(a: Arch, va: Word, vb: Word) {
    Path(a, va, a.levels) == Path(a, vb, a.levels)
  }

  /** Physical frames: those the allocator would hand out next, in order; those marked as page
      tables; and the reference counts. */
  datatype Frames = Frames(pool: seq<Word>, tables: set<Word>, refs: map<Word, nat>) {
    function Ref(f: Word): nat {
      if f in refs then refs[f] else 0
    }

    function Freed(f: Word): Frames {
      Frames(pool + [f], tables - {f}, refs[f := 0])
    }

    function Shared(f: Word): Frames {
      this.(refs := refs[f := Ref(f) + 1])
    }
  }

  /** The tree grew by exactly the frames the pool gave up, each now a table with one reference. */
  ghost predicate Took(homes: Homes, homes': Homes, fr: Frames, fr': Frames) {
    && multiset(homes'.Keys) + multiset(fr'.pool) == multiset(homes.Keys) + multiset(fr.pool)
    && (forall f :: f in homes ==> f in homes' && homes'[f] == homes[f])
    && fr'.tables == fr.tables + (homes'.Keys - homes.Keys)
    && forall f :: fr'.Ref(f) == if f in homes' && f !in homes then 1 else fr.Ref(f)
  }

  class AddressSpace {
    const a: Arch
    const root: Word
    var mem: Memory
    var frames: Frames
    ghost var homes: Homes

    ghost predicate Valid()
      reads this
    {
      && Lawful(a)
      && Tree(a, mem, root, homes)
      && FreshPool(a, frames.pool, homes)
      && Counted(a, frames, homes)
    }

    constructor (a: Arch, root: Word, mem: Memory, frames: Frames, ghost homes: Homes)
      ensures this.a == a && this.root == root && this.mem == mem && this.frames == frames && this.homes == homes
    {
      this.a, this.root, this.mem, this.frames, this.homes := a, root, mem, frames, homes;
    }

    /** A zeroed frame for a table, if there is one and one is wanted. */
    method AllocTable(create: bool) returns (r: Option<Word>)
      modifies `mem, `frames
      ensures r.None? <==> !create || old(frames.pool) == []
      ensures r.None? ==> mem == old(mem) && frames == old(frames)
      ensures r.Some? ==> old(frames.pool) == [r.value] + frames.pool && frames.tables == old(frames.tables) + {r.value}
      ensures r.Some? ==> forall f :: frames.Ref(f) == if f == r.value then 1 else old(frames).Ref(f)
      ensures r.Some? ==> forall j :: Get(mem, r.value, j) == ZERO
      ensures r.Some? ==> forall f, j :: f != r.value ==> Get(mem, f, j) == Get(old(mem), f, j)
    {
      if !create || frames.pool == [] {
        return None;
      }
      var n := frames.pool[0];
      frames := Frames(frames.pool[1..], frames.tables + {n}, frames.refs[n := 1]);
      mem := map k | k in mem && k.0 != n :: mem[k];
      r := Some(n);
    }

    /** Fills table `n` with the pieces of block `e` of level `l`. */
    method FillPieces(n: Word, e: Word, l: nat)
      modifies `mem
      ensures HoldsPieces(a, mem, n, e, l)
      ensures forall f, j :: f != n ==> Get(mem, f, j) == Get(old(mem), f, j)
    {
      for k := 0 to 512
        invariant forall i: Index :: i as int < k ==> Get(mem, n, i) == a.split(e, l + 1, i)
        invariant forall f, j :: f != n ==> Get(mem, f, j) == Get(old(mem), f, j)
      {
        var i := k as Index;
        ghost var before := mem;
        mem := mem[(n, i) := a.split(e, l + 1, i)];
        assert forall x: Index :: x != i ==> Get(mem, n, x) == Get(before, n, x);
      }
    }

    /** Hangs the zeroed frame `n` into the absent slot `i` of `t`. */
    method LinkEmpty(t: Word, i: Index, n: Word)
      requires Lawful(a) && Tree(a, mem, root, homes) && t in homes && homes[t].level + 1 < a.levels
      requires n !in homes && a.isFrame(n) && !a.present(Get(mem, t, i))
      requires forall j :: Get(mem, n, j) == ZERO
      modifies `mem, `homes
      ensures Tree(a, mem, root, homes) && homes == Grown(old(homes), t, i, n)
      ensures SameTranslations(a, old(mem), mem, root) && Hangs(a, old(mem), mem, old(homes), t, i, n)
      ensures EmptyTable(mem, n)
    {
      hide Lawful, Tree, SameTranslations;
      mem := mem[(t, i) := a.makeTable(n)];
      assert forall j :: Get(mem, n, j) == Get(old(mem), n, j);
      GrowEmpty(a, old(mem), mem, root, homes, t, i, n);
      homes := Grown(homes, t, i, n);
    }

    /** Replaces the block in slot `i` of `t` by the table `n` of its pieces. */
    method LinkPieces(t: Word, l: nat, i: Index, n: Word)
      requires Lawful(a) && Tree(a, mem, root, homes) && t in homes && homes[t].level == l && l + 1 < a.levels
      requires n !in homes && a.isFrame(n) && a.present(Get(mem, t, i)) && a.isBlock(Get(mem, t, i))
      requires forall j :: Get(mem, n, j) == ZERO
      modifies `mem, `homes
      ensures Tree(a, mem, root, homes) && homes == Grown(old(homes), t, i, n)
      ensures SameTranslations(a, old(mem), mem, root) && Hangs(a, old(mem), mem, old(homes), t, i, n)
    {
      hide HoldsPieces, Lawful, Tree, SameTranslations;
      var e := Get(mem, t, i);
      FillPieces(n, e, l);
      ghost var filled := mem;
      mem := mem[(t, i) := a.makeTable(n)];
      assert forall j :: Get(mem, n, j) == Get(filled, n, j);
      SameTable(a, filled, mem, n, e, l);
      GrowPieces(a, old(mem), mem, root, homes, t, i, n);
      homes := Grown(homes, t, i, n);
    }

    /** A new table in slot `i` of `t`: empty, or holding the pieces of the block that was there. */
    method NewTable(t: Word, l: nat, i: Index, create: bool) returns (r: Option<Word>)
      requires Valid() && t in homes && homes[t].level == l && l + 1 < a.levels
      requires !IsTable(a, Get(mem, t, i))
      modifies this
      ensures r.None? ==> unchanged(this) && (!create || frames.pool == [])
      ensures r.Some? ==> create && Valid() && Took(old(homes), homes, old(frames), frames)
      ensures r.Some? ==> SameTranslations(a, old(mem), mem, root) && r.value !in old(homes)
      ensures r.Some? ==> homes == Grown(old(homes), t, i, r.value) && Hangs(a, old(mem), mem, old(homes), t, i, r.value)
      ensures r.Some? ==> OpenTable(a, Get(mem, t, i)) && a.addr(Get(mem, t, i)) == r.value && |old(frames.pool)| == |frames.pool| + 1
      ensures r.Some? && !a.present(Get(old(mem), t, i)) ==> EmptyTable(mem, r.value)
    {
      hide Lawful, Tree, FreshPool, Counted, WalkFrom, Took;
      var e := Get(mem, t, i);
      r := AllocTable(create);
      if r.None? {
        return;
      }
      var n := r.value;
      PoolHead(a, frames.pool, n, homes);
      SameTree(a, old(mem), mem, root, homes);
      if a.present(e) {
        LinkPieces(t, l, i, n);
      } else {
        LinkEmpty(t, i, n);
      }
      PoolRest(a, frames.pool, n, old(homes), homes);
      TookOne(old(homes), homes, old(frames), frames, n);
      CountedOne(a, old(homes), homes, old(frames), frames, n);
      TableEntry(a, n);
    }

    /** One level down from slot `i` of table `t`: follow it, split it, or fill it. */
    method DescendLevel(t: Word, l: nat, i: Index, create: bool) returns (r: Option<Word>)
      requires Valid() && t in homes && homes[t].level == l && l + 1 < a.levels
      modifies this
      ensures Valid() && Took(old(homes), homes, old(frames), frames)
      ensures SameTranslations(a, old(mem), mem, root)
      ensures r.None? ==> unchanged(this) && !IsTable(a, Get(mem, t, i)) && (!create || frames.pool == [])
      ensures !create || IsTable(a, Get(old(mem), t, i)) ==> unchanged(this)
      ensures |frames.pool| <= |old(frames.pool)| <= |frames.pool| + 1
      ensures r.Some? ==> IsTable(a, Get(mem, t, i)) && a.addr(Get(mem, t, i)) == r.value && r.value in homes
      ensures r.Some? && !IsTable(a, Get(old(mem), t, i)) ==> OpenTable(a, Get(mem, t, i))
      ensures forall f, j :: f in old(homes) && (f, j) != (t, i) ==> Get(mem, f, j) == Get(old(mem), f, j)
      ensures forall f :: f in homes && f !in old(homes) ==> homes[f] == Place(l + 1, old(homes)[t].path + [i])
      ensures !IsBlock(a, Get(old(mem), t, i)) ==> forall f :: f in homes && f !in old(homes) ==> EmptyTable(mem, f)
    {
      hide Lawful, Tree, FreshPool, Counted, WalkFrom, Took;
      var e := Get(mem, t, i);
      TookNone(homes, frames);
      if IsTable(a, e) {
        EntryHome(a, mem, root, homes, t, i);
        r := Some(a.addr(e));
      } else {
        r := NewTable(t, l, i, create);
      }
    }

    /** The leaf slot for `va`, growing the tree on the way if asked to. */
    method GetPte(va: Word, create: bool) returns (r: Option<Pte>)
      requires Valid()
      modifies this
      ensures Valid() && Took(old(homes), homes, old(frames), frames)
      ensures SameTranslations(a, old(mem), mem, root)
      ensures !create ==> unchanged(this)
      ensures r.None? ==> (!create || frames.pool == []) && forall t :: !LeadsToLeaf(a, mem, root, va, 0, t)
      ensures r.Some? ==> r.value.slot == a.index(va, a.levels - 1) && LeadsToLeaf(a, mem, root, va, 0, r.value.table)
      ensures r.Some? ==> r.value.table in homes && homes[r.value.table] == Place(a.levels - 1, Path(a, va, a.levels - 1))
      ensures GrewAlong(a, va, old(mem), mem, old(homes), homes, a.levels - 1)
      ensures |frames.pool| <= |old(frames.pool)| <= |frames.pool| + a.levels - 1
      ensures HasLeaf(a, old(mem), root, va) ==> unchanged(this) && r.Some?
    {
      hide Lawful, Tree, FreshPool, Counted, Took, GrewAlong, HasLeaf, LeadsToLeaf, Path, SameTranslations, Leads;
      var table := root;
      var level := 0;
      ghost var mem0, homes0, frames0 := mem, homes, frames;
      assert a.levels > 0 by { HasLevels(a); }
      WalkStarts(va);
      while level < a.levels - 1
        invariant level <= a.levels - 1 && Walked(va, mem0, homes0, frames0, table, level)
        invariant !create || HasLeaf(a, mem0, root, va) ==> unchanged(this)
        decreases a.levels - level
      {
        var next := StepDown(va, table, level, create, mem0, homes0, frames0);
        if next.None? {
          LeadsStops(a, mem, root, va, 0, table, level);
          GrewMore(a, va, mem0, mem, homes0, homes, level);
          NoLeaf(a, mem, root, va);
          return None;
        }
        table, level := next.value, level + 1;
      }
      LeafThere(a, mem, root, va, table);
      r := Some(Pte(table, a.index(va, a.levels - 1)));
    }

    /** The walk for `va` that began with `mem0`, `homes0` and `frames0` got to `table`. */
    ghost predicate Walked(va: Word, mem0: Memory, homes0: Homes, frames0: Frames, table: Word, level: nat)
      reads this
    {
      && Valid() && Took(homes0, homes, frames0, frames) && SameTranslations(a, mem0, mem, root)
      && |frames.pool| <= |frames0.pool| <= |frames.pool| + level
      && Leads(a, mem, root, va, 0, table, level) && table in homes && homes[table] == Place(level, Path(a, va, level))
      && GrewAlong(a, va, mem0, mem, homes0, homes, level)
    }

    lemma WalkStarts(va: Word)
      requires Valid()
      ensures Walked(va, mem, homes, frames, root, 0)
    {
      hide Lawful, Tree, FreshPool, Counted, Took, GrewAlong, HasLeaf, Path;
      RootPlace(a, mem, root, homes, va);
      TookNone(homes, frames);
      GrewNone(a, va, mem, homes);
    }

    /** One level further down. */
    method StepDown(va: Word, table: Word, level: nat, create: bool, ghost mem0: Memory, ghost homes0: Homes, ghost frames0: Frames)
      returns (next: Option<Word>)
      requires level + 1 < a.levels && Walked(va, mem0, homes0, frames0, table, level)
      modifies this
      ensures !create || HasLeaf(a, old(mem), root, va) ==> unchanged(this)
      ensures next.None? ==> unchanged(this) && !IsTable(a, Get(mem, table, a.index(va, level))) && (!create || frames.pool == [])
      ensures next.Some? ==> Walked(va, mem0, homes0, frames0, next.value, level + 1)
    {
      hide Lawful, Tree, FreshPool, Counted, Took, WalkFrom, GrewAlong, EmptyTable, HasLeaf, LeadsToLeaf, Path;
      ghost var mem1, homes1, frames1 := mem, homes, frames;
      var i := a.index(va, level);
      LeafAhead(a, mem, root, va, table, level);
      next := DescendLevel(table, level, i, create);
      if next.None? {
        return;
      }
      TookKeeps(homes1, homes, frames1, frames);
      TookMore(homes0, homes1, homes, frames0, frames1, frames);
      StillLeads(a, mem1, mem, root, homes1, va, table, level);
      EntryHome(a, mem, root, homes, table, i);
      PathNext(a, va, level);
      GrewNext(a, va, mem0, mem1, mem, homes0, homes1, homes, table, level);
    }

    /** Maps `frame` at `va`; the leaf must be free. */
    method PageInsert(frame: Word, va: Word, perm: bv32) returns (e: Error)
      requires Valid() && a.isFrame(frame) && frame !in homes && frame !in frames.pool
      modifies this
      ensures Valid() && e in {NoError, NoMem, Exists}
      ensures e == NoMem ==> frames.pool == [] && |old(frames.pool)| < a.levels && forall t :: !LeadsToLeaf(a, mem, root, va, 0, t)
      ensures |frames.pool| <= |old(frames.pool)| < |frames.pool| + a.levels
      ensures e == Exists ==> Translate(a, old(mem), root, va).Some?
      ensures e != NoError ==> SameTranslations(a, old(mem), mem, root) && Took(old(homes), homes, old(frames), frames)
      ensures e == NoError ==> Translate(a, old(mem), root, va).None?
      ensures e == NoError ==> OnePage(a, old(mem), mem, root, va, frame, perm)
      ensures e == NoError ==> Took(old(homes), homes, old(frames).Shared(frame), frames)
      ensures e != NoError ==> GrewAlong(a, va, old(mem), mem, old(homes), homes, a.levels - 1)
      ensures e == NoError ==> StoredAt(a, va, old(mem), mem, old(homes), homes, a.makePage(frame, perm))
      ensures HasLeaf(a, old(mem), root, va) ==> frames.pool == old(frames.pool) && e != NoMem
    {
      hide Lawful, Tree, FreshPool, Counted, Took, WalkFrom, LeadsToLeaf, Frames.Ref, GrewAlong, OnePage;
      ghost var frames0 := frames;
      var pte := GetPte(va, true);
      if pte.None? {
        return NoMem;
      }
      var Pte(t, i) := pte.value;
      LeafTranslates(a, mem, root, homes, va, t);
      if a.present(Get(mem, t, i)) {
        return Exists;
      }
      ghost var mem1, frames1 := mem, frames;
      frames := frames.Shared(frame);
      mem := mem[(t, i) := a.makePage(frame, perm)];
      LeafStore(a, mem1, mem, root, homes, va, t);
      PageMapped(a, old(mem), mem1, mem, root, homes, va, t, frame, perm);
      SharedLater(old(homes), homes, frames0, frames1, frame);
      CountedShared(a, frames1, homes, frame);
      assert StoreStep(a, va, old(mem), mem1, mem, old(homes), homes, t, a.makePage(frame, perm));
      return NoError;
    }

    /** The tables on the path of `va`, from the root as far down as there are any. */
    method TablesTo(va: Word) returns (tabs: seq<Word>)
      requires Valid()
      ensures OnPath(a, mem, root, homes, va, tabs) && 0 < |tabs| <= a.levels && tabs[0] == root
      ensures |tabs| == a.levels || !IsTable(a, Get(mem, tabs[|tabs| - 1], a.index(va, |tabs| - 1)))
    {
      hide Lawful, Tree, FreshPool, Counted, OnPath, Path;
      HasLevels(a);
      RootPlace(a, mem, root, homes, va);
      tabs := [root];
      PathFrom(a, mem, root, homes, va, tabs);
      while |tabs| < a.levels && IsTable(a, Get(mem, tabs[|tabs| - 1], a.index(va, |tabs| - 1)))
        invariant OnPath(a, mem, root, homes, va, tabs) && 0 < |tabs| <= a.levels && tabs[0] == root
        decreases a.levels - |tabs|
      {
        var d := |tabs| - 1;
        var next := a.addr(Get(mem, tabs[d], a.index(va, d)));
        OnPathAt(a, mem, root, homes, va, tabs, d);
        EntryHome(a, mem, root, homes, tabs[d], a.index(va, d));
        PathNext(a, va, d);
        PathMore(a, mem, root, homes, va, tabs, next);
        tabs := tabs + [next];
      }
    }

    method IsEmpty(t: Word) returns (empty: bool)
      ensures empty <==> EmptyTable(mem, t)
    {
      for k := 0 to 512
        invariant forall i: Index :: i as int < k ==> Get(mem, t, i) == ZERO
      {
        if Get(mem, t, k as Index) != ZERO {
          return false;
        }
      }
      return true;
    }

    /** Cuts the empty table `t` off slot `i` of `p` and gives its frame back. */
    method CutTable(p: Word, i: Index, t: Word)
      requires Valid() && p in homes && homes[p].level + 1 < a.levels
      requires IsTable(a, Get(mem, p, i)) && a.addr(Get(mem, p, i)) == t && EmptyTable(mem, t) && t in frames.tables
      modifies this
      ensures Valid() && SameTranslations(a, old(mem), mem, root)
      ensures t in old(homes) && homes == old(homes) - {t} && p != t && t != root
      ensures frames == old(frames).Freed(t) && mem == old(mem)[(p, i) := ZERO]
    {
      hide Lawful, Tree, SameTranslations, EmptyTable;
      mem := mem[(p, i) := ZERO];
      Prune(a, old(mem), mem, root, homes, p, i, t);
      assert frames.Ref(t) == 1;
      frames := frames.Freed(t);
      homes := homes - {t};
      PoolBack(a, old(frames.pool), old(homes), t);
    }

    /** Clears the leaf slot of `va`. */
    method ClearLeaf(va: Word, tabs: seq<Word>)
      requires Valid() && OnPath(a, mem, root, homes, va, tabs) && 0 < |tabs| == a.levels && tabs[0] == root
      modifies `mem
      ensures Valid() && OnPath(a, mem, root, homes, va, tabs)
      ensures mem == old(mem)[(tabs[a.levels - 1], a.index(va, a.levels - 1)) := ZERO]
      ensures forall vb :: Translate(a, mem, root, vb) == if SamePage(a, va, vb) then None else Translate(a, old(mem), root, vb)
    {
      hide Lawful, Tree, FreshPool, Counted, WalkFrom, OnPath;
      PathLeads(a, mem, root, homes, va, tabs, 0);
      OnPathAt(a, mem, root, homes, va, tabs, a.levels - 1);
      mem := mem[(tabs[a.levels - 1], a.index(va, a.levels - 1)) := ZERO];
      LeafStore(a, old(mem), mem, root, homes, va, tabs[a.levels - 1]);
      ClearedPage(a, old(mem), mem, root, homes, va, tabs[a.levels - 1]);
      PathAbove(a, old(mem), mem, root, homes, va, tabs);
    }

    /** Cuts off the last table of the path of `va` if it is an allocated, empty one. */
    method PruneLast(va: Word, tabs: seq<Word>) returns (cut: bool)
      requires Valid() && OnPath(a, mem, root, homes, va, tabs) && 1 < |tabs| <= a.levels
      modifies this
      ensures var t := tabs[|tabs| - 1];
        && cut == (old(EmptyTable(mem, t)) && t in old(frames.tables))
        && (!cut ==> unchanged(this))
        && (cut ==> t in old(homes) && homes == old(homes) - {t} && frames == old(frames).Freed(t))
      ensures cut ==> mem == old(mem)[(tabs[|tabs| - 2], a.index(va, |tabs| - 2)) := ZERO]
      ensures cut ==> Valid() && SameTranslations(a, old(mem), mem, root)
      ensures cut ==> OnPath(a, mem, root, homes, va, tabs[..|tabs| - 1])
      ensures cut ==> !IsTable(a, Get(mem, tabs[|tabs| - 2], a.index(va, |tabs| - 2)))
    {
      hide Lawful, Tree, FreshPool, Counted, EmptyTable, WalkFrom, OnPath, Path, Frames.Ref, IsTable, SameTranslations;
      var d := |tabs| - 1;
      var t := tabs[d];
      var empty := IsEmpty(t);
      cut := empty && t in frames.tables;
      if cut {
        OnPathAt(a, mem, root, homes, va, tabs, d - 1);
        OnPathAt(a, mem, root, homes, va, tabs, d);
        CutTable(tabs[d - 1], a.index(va, d - 1), t);
        PathCut(a, old(mem), mem, root, old(homes), va, tabs);
        ZeroIsNoTable(a);
      }
    }

    /** Cuts off empty tables from the end of the path of `va` on. */
    method PrunePath(va: Word, tabs: seq<Word>)
      requires Valid() && OnPath(a, mem, root, homes, va, tabs) && 0 < |tabs| <= a.levels
      requires |tabs| == a.levels || !IsTable(a, Get(mem, tabs[|tabs| - 1], a.index(va, |tabs| - 1)))
      modifies this
      ensures Valid() && Gave(old(homes), homes, old(frames), frames) && SameTranslations(a, old(mem), mem, root)
      ensures forall t :: t in homes && t != root && OnPathOf(a, va, homes[t]) && t in frames.tables ==> !EmptyTable(mem, t)
      ensures OnlyPath(a, va, old(mem), mem, old(homes), homes)
    {
      hide Lawful, Tree, FreshPool, Counted, EmptyTable, WalkFrom, OnPath, Gave, Path, Frames.Ref, IsTable, OnlyPath, SameTranslations;
      var path := tabs;
      GaveNone(homes, frames);
      NoChange(a, va, mem, root, homes);
      while |path| > 1
        invariant 0 < |path| <= a.levels && Valid() && OnPath(a, mem, root, homes, va, path)
        invariant SameTranslations(a, old(mem), mem, root) && Gave(old(homes), homes, old(frames), frames)
        invariant |path| == a.levels || !IsTable(a, Get(mem, path[|path| - 1], a.index(va, |path| - 1)))
        invariant OnlyPath(a, va, old(mem), mem, old(homes), homes)
        decreases |path|
      {
        var d := |path| - 1;
        ghost var mem0, homes0, frames0 := mem, homes, frames;
        OnPathAt(a, mem, root, homes, va, path, d - 1);
        OnPathAt(a, mem, root, homes, va, path, d);
        var cut := PruneLast(va, path);
        if !cut {
          break;
        }
        SameAgain(a, old(mem), mem0, mem, root);
        GaveKeeps(old(homes), homes0, old(frames), frames0);
        CutOnly(a, va, old(mem), mem0, old(homes), homes0, path[d - 1], path[d]);
        GaveOne(old(homes), homes0, old(frames), frames0, path[d]);
        path := path[..d];
      }
      NoEmptyLeft(a, mem, root, homes, va, path, frames.tables);
    }

    /** Clears the page of `va` and prunes the tables this leaves empty. */
    method UnmapPage(va: Word)
      requires Valid()
      modifies this
      ensures Valid() && Gave(old(homes), homes, old(frames), frames)
      ensures forall vb :: !SamePage(a, va, vb) ==> Translate(a, mem, root, vb) == Translate(a, old(mem), root, vb)
      ensures Cleared(a, old(mem), mem, root, va)
      ensures forall t :: t in homes && t != root && OnPathOf(a, va, homes[t]) && t in frames.tables ==> !EmptyTable(mem, t)
      ensures OnlyPath(a, va, old(mem), mem, old(homes), homes)
    {
      hide Lawful, Tree, FreshPool, Counted, EmptyTable, Translate, SamePage, Cleared, SameTranslations, OnlyPath, OnPath, OnPathOf, Leads, Gave;
      var tabs := TablesTo(va);
      NoChange(a, va, mem, root, homes);
      if |tabs| == a.levels {
        OnPathAt(a, mem, root, homes, va, tabs, a.levels - 1);
        PathLeads(a, mem, root, homes, va, tabs, 0);
        assert LeadsToLeaf(a, mem, root, va, 0, tabs[a.levels - 1]);
        ClearLeaf(va, tabs);
        LeafCutOnly(a, va, old(mem), mem, homes, tabs[a.levels - 1]);
      } else {
        PathLeads(a, mem, root, homes, va, tabs, 0);
        LeadsStops(a, mem, root, va, 0, tabs[|tabs| - 1], |tabs| - 1);
      }
      ghost var mem1 := mem;
      PrunePath(va, tabs);
      GaveKeeps(old(homes), homes, old(frames), frames);
      OnlyAgain(a, va, old(mem), mem1, mem, old(homes), homes);
      PageCleared(a, va, old(mem), mem1, mem, root);
    }
  }

  predicate IsBlock(a: Arch, e: Word) {
    a.present(e) && a.isBlock(e)
  }

  /** No table on the path of `va` holds a block there. */
  ghost predicate NoBlocksOn(a: Arch, mem: Memory, homes: Homes, va: Word) {
    forall f :: f in homes && OnPathOf(a, va, homes[f]) && homes[f].level + 1 < a.levels ==>
      !IsBlock(a, Get(mem, f, a.index(va, homes[f].level)))
  }

  /** An entry that links to a table and takes no right away. */
  ghost predicate OpenTable(a: Arch, e: Word) {
    IsTable(a, e) && a.tableRights(e) == ALL
  }

  /** The new tables hold nothing but links to tables. */
  ghost predicate NewArePlain(a: Arch, mem: Memory, homes: Homes, homes': Homes) {
    forall f, j :: f in homes' && f !in homes ==> Get(mem, f, j) == ZERO || (homes'[f].level + 1 < a.levels && OpenTable(a, Get(mem, f, j)))
  }

  /** A walk for `va` grew the tree: only slots on the path of `va` above level `l` changed, and only
      ones that held no table; every new table is on the path, and holds links alone unless a
      block was split. */
  ghost predicate GrewAlong(a: Arch, va: Word, mem: Memory, mem': Memory, homes: Homes, homes': Homes, l: nat) {
    && (forall f :: f in homes ==> f in homes' && homes'[f] == homes[f])
    && (forall f, j :: f in homes && (!Passes(a, va, homes[f], j) || homes[f].level >= l) ==> Get(mem', f, j) == Get(mem, f, j))
    && (forall f :: f in homes' && f !in homes ==> OnPathOf(a, va, homes'[f]))
    && TablesStay(a, mem, mem', homes)
    && (NoBlocksOn(a, mem, homes, va) ==> NewArePlain(a, mem', homes, homes') && ChangedToTables(a, mem, mem', homes))
  }

  /** What changed in the old tables are slots that now link to tables. */
  ghost predicate ChangedToTables(a: Arch, mem: Memory, mem': Memory, homes: Homes) {
    forall f, j :: f in homes ==> Get(mem', f, j) == Get(mem, f, j) || OpenTable(a, Get(mem', f, j))
  }

  /** After a walk that grew the tree, `word` went into the absent leaf slot of `va` in table `t`. */
  ghost predicate StoreStep(a: Arch, va: Word, mem: Memory, mem1: Memory, mem': Memory, homes: Homes, homes': Homes, t: Word, word: Word) {
    && a.levels > 0 && GrewAlong(a, va, mem, mem1, homes, homes', a.levels - 1)
    && t in homes' && homes'[t] == Place(a.levels - 1, Path(a, va, a.levels - 1))
    && !a.present(Get(mem1, t, a.index(va, a.levels - 1))) && mem' == mem1[(t, a.index(va, a.levels - 1)) := word]
  }

  ghost predicate StoredAt(a: Arch, va: Word, mem: Memory, mem': Memory, homes: Homes, homes': Homes, word: Word) {
    exists mem1, t :: StoreStep(a, va, mem, mem1, mem', homes, homes', t, word)
  }

  lemma GrewNone(a: Arch, va: Word, mem: Memory, homes: Homes)
    ensures GrewAlong(a, va, mem, mem, homes, homes, 0)
  {
  }

  lemma GrewMore(a: Arch, va: Word, mem: Memory, mem': Memory, homes: Homes, homes': Homes, l: nat)
    requires GrewAlong(a, va, mem, mem', homes, homes', l) && l < a.levels
    ensures GrewAlong(a, va, mem, mem', homes, homes', a.levels - 1)
  {
  }

  /** One level of the walk. */
  lemma GrewNext(a: Arch, va: Word, mem0: Memory, mem: Memory, mem': Memory, homes0: Homes, homes: Homes, homes': Homes, t: Word, l: nat)
    requires Lawful(a) && GrewAlong(a, va, mem0, mem, homes0, homes, l)
    requires t in homes && homes[t] == Place(l, Path(a, va, l)) && l + 1 < a.levels
    requires forall f :: f in homes ==> f in homes' && homes'[f] == homes[f]
    requires forall f, j :: f in homes && (f, j) != (t, a.index(va, l)) ==> Get(mem', f, j) == Get(mem, f, j)
    requires IsTable(a, Get(mem, t, a.index(va, l))) ==> mem' == mem
    requires IsTable(a, Get(mem', t, a.index(va, l))) && (!IsTable(a, Get(mem, t, a.index(va, l))) ==> OpenTable(a, Get(mem', t, a.index(va, l))))
    requires forall f :: f in homes' && f !in homes ==> homes'[f] == Place(l + 1, Path(a, va, l + 1))
    requires !IsBlock(a, Get(mem, t, a.index(va, l))) ==> forall f :: f in homes' && f !in homes ==> EmptyTable(mem', f)
    ensures GrewAlong(a, va, mem0, mem', homes0, homes', l + 1)
  {
    hide Path, Lawful, NewArePlain, NoBlocksOn, ChangedToTables, EmptyTable, OpenTable;
    if NoBlocksOn(a, mem0, homes0, va) {
      PlainNext(a, va, mem0, mem, mem', homes0, homes, homes', t, l);
    }
  }

  lemma PlainNext(a: Arch, va: Word, mem0: Memory, mem: Memory, mem': Memory, homes0: Homes, homes: Homes, homes': Homes, t: Word, l: nat)
    requires Lawful(a) && NoBlocksOn(a, mem0, homes0, va) && NewArePlain(a, mem, homes0, homes) && ChangedToTables(a, mem0, mem, homes0)
    requires t in homes && homes[t] == Place(l, Path(a, va, l)) && l + 1 < a.levels
    requires forall f :: f in homes0 ==> f in homes && homes[f] == homes0[f]
    requires forall f :: f in homes ==> f in homes' && homes'[f] == homes[f]
    requires t in homes0 ==> Get(mem, t, a.index(va, l)) == Get(mem0, t, a.index(va, l))
    requires forall f, j :: f in homes && (f, j) != (t, a.index(va, l)) ==> Get(mem', f, j) == Get(mem, f, j)
    requires Get(mem', t, a.index(va, l)) == Get(mem, t, a.index(va, l)) || OpenTable(a, Get(mem', t, a.index(va, l)))
    requires !IsBlock(a, Get(mem, t, a.index(va, l))) ==> forall f :: f in homes' && f !in homes ==> EmptyTable(mem', f)
    ensures NewArePlain(a, mem', homes0, homes') && ChangedToTables(a, mem0, mem', homes0)
  {
    hide Path, Lawful;
    ZeroAbsent(a);
    assert !IsBlock(a, Get(mem, t, a.index(va, l))) by {
      if t in homes0 {
        assert OnPathOf(a, va, homes0[t]);
      }
    }
  }

  lemma ZeroAbsent(a: Arch)
    requires Lawful(a)
    ensures !a.present(ZERO)
  {
  }

  /** No table entry of the tree has changed. */
  ghost predicate TablesStay(a: Arch, mem: Memory, mem': Memory, homes: Homes) {
    forall f, j :: f in homes && IsTable(a, Get(mem, f, j)) ==> Get(mem', f, j) == Get(mem, f, j)
  }

  /** The table at `p` lies on the path of `va`. */
  ghost predicate OnPathOf(a: Arch, va: Word, p: Place) {
    p.path == Path(a, va, p.level)
  }

  /** Only tables on the path of `va` were cut off, and only slots on it were changed. */
  ghost predicate OnlyPath(a: Arch, va: Word, mem: Memory, mem': Memory, homes: Homes, homes': Homes) {
    && (forall f :: f in homes && f !in homes' ==> OnPathOf(a, va, homes[f]))
    && (forall f, j :: f in homes' && !Passes(a, va, homes'[f], j) ==> Get(mem', f, j) == Get(mem, f, j))
    && forall f, j :: f in homes' ==> Get(mem', f, j) == Get(mem, f, j) || Get(mem', f, j) == ZERO
  }

  /** The page of `va` is unmapped, unless no leaf table leads to it. */
  ghost predicate Cleared(a: Arch, mem: Memory, mem': Memory, root: Word, va: Word) {
    forall vb :: SamePage(a, va, vb) ==>
      if exists t :: LeadsToLeaf(a, mem, root, va, 0, t) then Translate(a, mem', root, vb).None?
      else Translate(a, mem', root, vb) == Translate(a, mem, root, vb)
  }

  /** The tree shrank by exactly the frames the pool got back. */
  ghost predicate Gave(homes: Homes, homes': Homes, fr: Frames, fr': Frames) {
    && multiset(homes'.Keys) + multiset(fr'.pool) == multiset(homes.Keys) + multiset(fr.pool)
    && (forall f :: f in homes' ==> f in homes && homes'[f] == homes[f])
    && fr'.tables == fr.tables - (homes.Keys - homes'.Keys)
    && forall f :: fr'.Ref(f) == if f in homes && f !in homes' then 0 else fr.Ref(f)
  }

  /** `tabs` are tables on the path of `va`, each hanging in the one before, from the root on. */
  ghost predicate OnPath(a: Arch, mem: Memory, root: Word, homes: Homes, va: Word, tabs: seq<Word>) {
    && |tabs| > 0 && tabs[0] == root
    && forall k :: 0 <= k < |tabs| ==> StepOk(a, mem, homes, va, tabs, k)
  }

  /** The `k`-th table sits at level `k` on the path of `va` and leads to the next. */
  ghost predicate StepOk(a: Arch, mem: Memory, homes: Homes, va: Word, tabs: seq<Word>, k: nat)
    requires k < |tabs|
  {
    && tabs[k] in homes && homes[tabs[k]] == Place(k, Path(a, va, k))
    && (k + 1 < |tabs| ==>
          IsTable(a, Get(mem, tabs[k], a.index(va, k))) && a.addr(Get(mem, tabs[k], a.index(va, k))) == tabs[k + 1])
  }

  datatype Pte = Pte(table: Word, slot: Index)

  lemma PoolHead(a: Arch, pool: seq<Word>, n: Word, homes: Homes)
    requires FreshPool(a, [n] + pool, homes)
    ensures a.isFrame(n) && n !in homes
  {
    assert n in [n] + pool;
  }

  /** Frames outside the tree do not matter to it. */
  lemma {:induction false} SameWalk(a: Arch, mem: Memory, mem': Memory, root: Word, homes: Homes, frame: Word, va: Word, l: nat, r: Rights)
    requires Homed(a, mem, root, homes) && frame in homes && homes[frame].level == l
    requires forall f, j :: f in homes ==> Get(mem', f, j) == Get(mem, f, j)
    ensures WalkFrom(a, mem', frame, va, l, r) == WalkFrom(a, mem, frame, va, l, r)
    decreases a.levels - l
  {
    var e := Get(mem, frame, a.index(va, l));
    if a.present(e) && !(l == a.levels - 1 || a.isBlock(e)) {
      SameWalk(a, mem, mem', root, homes, a.addr(e), va, l + 1, Meet(r, a.tableRights(e)));
    }
  }

  lemma SameTree(a: Arch, mem: Memory, mem': Memory, root: Word, homes: Homes)
    requires Tree(a, mem, root, homes)
    requires forall f, j :: f in homes ==> Get(mem', f, j) == Get(mem, f, j)
    ensures Tree(a, mem', root, homes) && SameTranslations(a, mem, mem', root)
  {
    SameTablesLinked(a, mem, mem', root, homes);
    forall va {
      SameWalk(a, mem, mem', root, homes, root, va, 0, ALL);
    }
  }

  lemma EntryHome(a: Arch, mem: Memory, root: Word, homes: Homes, t: Word, i: Index)
    requires Tree(a, mem, root, homes) && t in homes && homes[t].level + 1 < a.levels && IsTable(a, Get(mem, t, i))
    ensures a.addr(Get(mem, t, i)) in homes
    ensures homes[a.addr(Get(mem, t, i))] == Place(homes[t].level + 1, homes[t].path + [i])
  {
  }

  lemma SameTable(a: Arch, mem: Memory, mem': Memory, n: Word, e: Word, l: nat)
    requires HoldsPieces(a, mem, n, e, l) && forall j :: Get(mem', n, j) == Get(mem, n, j)
    ensures HoldsPieces(a, mem', n, e, l)
  {
  }

  lemma TableEntry(a: Arch, n: Word)
    requires Lawful(a) && a.isFrame(n)
    ensures OpenTable(a, a.makeTable(n)) && a.addr(a.makeTable(n)) == n
  {
  }

  lemma PoolBack(a: Arch, pool: seq<Word>, homes: Homes, t: Word)
    requires FreshPool(a, pool, homes) && t in homes && a.isFrame(t)
    ensures FreshPool(a, pool + [t], homes - {t})
  {
  }

  lemma PoolRest(a: Arch, pool: seq<Word>, n: Word, homes: Homes, homes': Homes)
    requires FreshPool(a, [n] + pool, homes) && homes'.Keys == homes.Keys + {n}
    ensures FreshPool(a, pool, homes')
  {
    var all := [n] + pool;
    forall k | 0 <= k < |pool|
      ensures pool[k] == all[k + 1] && pool[k] != n && pool[k] in all
    {
      assert all[0] != all[k + 1];
    }
  }

  lemma TookOne(homes: Homes, homes': Homes, fr: Frames, fr': Frames, n: Word)
    requires fr.pool == [n] + fr'.pool && n !in homes && homes'.Keys == homes.Keys + {n}
    requires forall f :: f in homes ==> homes'[f] == homes[f]
    requires fr'.tables == fr.tables + {n} && forall f :: fr'.Ref(f) == if f == n then 1 else fr.Ref(f)
    ensures Took(homes, homes', fr, fr')
  {
    assert multiset(homes'.Keys) == multiset(homes.Keys) + multiset{n};
    assert multiset(fr.pool) == multiset{n} + multiset(fr'.pool);
  }

  lemma TookNone(homes: Homes, fr: Frames)
    ensures Took(homes, homes, fr, fr)
  {
  }

  lemma TookKeeps(homes: Homes, homes': Homes, fr: Frames, fr': Frames)
    requires Took(homes, homes', fr, fr')
    ensures forall f :: f in homes ==> f in homes' && homes'[f] == homes[f]
  {
  }

  lemma HasLevels(a: Arch)
    requires Lawful(a)
    ensures a.levels > 0
  {
  }

  lemma RootPlace(a: Arch, mem: Memory, root: Word, homes: Homes, va: Word)
    requires Tree(a, mem, root, homes)
    ensures root in homes && homes[root] == Place(0, Path(a, va, 0))
  {
  }

  /** A change in one slot of a table leaves the path down to it, and the new entry leads on. */
  lemma StillLeads(a: Arch, mem: Memory, mem': Memory, root: Word, homes: Homes, va: Word, t: Word, m: nat)
    requires Tree(a, mem, root, homes) && m < a.levels && Leads(a, mem, root, va, 0, t, m) && t in homes && homes[t].level == m
    requires forall f, j :: f in homes && (f, j) != (t, a.index(va, m)) ==> Get(mem', f, j) == Get(mem, f, j)
    ensures Leads(a, mem', root, va, 0, t, m)
    ensures PathRights(a, mem', root, va, 0, m) == PathRights(a, mem, root, va, 0, m)
    ensures IsTable(a, Get(mem', t, a.index(va, m))) ==> Leads(a, mem', root, va, 0, a.addr(Get(mem', t, a.index(va, m))), m + 1)
  {
    LeadsKeeps(a, mem, mem', root, homes, root, va, 0, t, m);
    if IsTable(a, Get(mem', t, a.index(va, m))) {
      LeadsOn(a, mem', root, va, 0, t, m);
    }
  }

  lemma TookMore(homes: Homes, homes': Homes, homes'': Homes, fr: Frames, fr': Frames, fr'': Frames)
    requires Took(homes, homes', fr, fr') && Took(homes', homes'', fr', fr'')
    ensures Took(homes, homes'', fr, fr'')
  {
  }

  /** Going on from a table that leads nowhere leads nowhere. */
  lemma {:induction false} LeadsStops(a: Arch, mem: Memory, frame: Word, va: Word, l: nat, t: Word, m: nat)
    requires l <= m && m + 1 < a.levels && Leads(a, mem, frame, va, l, t, m) && !IsTable(a, Get(mem, t, a.index(va, m)))
    ensures forall u :: !LeadsToLeaf(a, mem, frame, va, l, u)
    decreases m - l
  {
    if l < m {
      var next := a.addr(Get(mem, frame, a.index(va, l)));
      LeadsStops(a, mem, next, va, l + 1, t, m);
      forall u
        ensures !LeadsToLeaf(a, mem, frame, va, l, u)
      {
        assert !LeadsToLeaf(a, mem, next, va, l + 1, u);
      }
    }
  }

  /** What `va`'s page holds once `frame` is mapped there. */
  ghost function PageAt(a: Arch, mem: Memory, root: Word, va: Word, frame: Word, perm: bv32, vb: Word): Translation
    requires a.levels > 0
  {
    Translation(InFrame(frame, vb), Meet(PathRights(a, mem, root, va, 0, a.levels - 1), PermRights(perm)),
                a.memory(perm & VM_NOCACHE != 0))
  }

  /** The page of `va` now maps `frame`; every other address translates as before. */
  ghost predicate OnePage(a: Arch, mem: Memory, mem': Memory, root: Word, va: Word, frame: Word, perm: bv32) {
    && a.levels > 0
    && (forall vb :: SamePage(a, va, vb) ==> Translate(a, mem', root, vb) == Some(PageAt(a, mem', root, va, frame, perm, vb)))
    && forall vb :: !SamePage(a, va, vb) ==> Translate(a, mem', root, vb) == Translate(a, mem, root, vb)
  }

  /** The walk to `va` ends in its leaf slot. */
  lemma LeafTranslates(a: Arch, mem: Memory, root: Word, homes: Homes, va: Word, t: Word)
    requires Lawful(a) && Tree(a, mem, root, homes) && LeadsToLeaf(a, mem, root, va, 0, t)
    ensures a.levels > 0 && (Translate(a, mem, root, va).Some? <==> a.present(Get(mem, t, a.index(va, a.levels - 1))))
  {
    LeadsWalk(a, mem, root, va, 0, t, a.levels - 1, ALL);
  }

  lemma {:induction false} SamePathLeads(a: Arch, mem: Memory, frame: Word, va: Word, vb: Word, l: nat, t: Word, m: nat)
    requires l <= m && (forall k: nat :: k < m ==> a.index(va, k) == a.index(vb, k)) && Leads(a, mem, frame, va, l, t, m)
    ensures Leads(a, mem, frame, vb, l, t, m) && PathRights(a, mem, frame, vb, l, m) == PathRights(a, mem, frame, va, l, m)
    decreases m - l
  {
    if l < m {
      assert a.index(va, l) == a.index(vb, l);
      SamePathLeads(a, mem, a.addr(Get(mem, frame, a.index(va, l))), va, vb, l + 1, t, m);
    }
  }

  /** A slot of the leaf table is passed by the addresses of one page. */
  lemma LeafPage(a: Arch, va: Word, vb: Word)
    requires a.levels > 0
    ensures SamePage(a, va, vb) <==> Passes(a, vb, Place(a.levels - 1, Path(a, va, a.levels - 1)), a.index(va, a.levels - 1))
    ensures SamePage(a, va, vb) ==> forall k: nat :: k < a.levels ==> a.index(va, k) == a.index(vb, k)
  {
    var n := a.levels - 1;
    PathNext(a, va, n);
    PathNext(a, vb, n);
    var p, q := Path(a, va, a.levels), Path(a, vb, a.levels);
    assert p[..n] == Path(a, va, n) && q[..n] == Path(a, vb, n);
    if SamePage(a, va, vb) {
      forall k: nat | k < a.levels
        ensures a.index(va, k) == a.index(vb, k)
      {
        assert p[k] == q[k];
      }
    }
  }

  /** Storing into the leaf slot of `va` keeps the tree and matters to `va`'s page alone. */
  lemma LeafStore(a: Arch, mem: Memory, mem': Memory, root: Word, homes: Homes, va: Word, t: Word)
    requires a.levels > 0 && Tree(a, mem, root, homes) && LeadsToLeaf(a, mem, root, va, 0, t)
    requires t in homes && homes[t] == Place(a.levels - 1, Path(a, va, a.levels - 1))
    requires forall f, j :: f in homes && (f, j) != (t, a.index(va, a.levels - 1)) ==> Get(mem', f, j) == Get(mem, f, j)
    ensures Tree(a, mem', root, homes) && LeadsToLeaf(a, mem', root, va, 0, t)
    ensures forall vb :: !SamePage(a, va, vb) ==> Translate(a, mem', root, vb) == Translate(a, mem, root, vb)
  {
    SameTablesLinked(a, mem, mem', root, homes);
    StillLeads(a, mem, mem', root, homes, va, t, a.levels - 1);
    forall vb | !SamePage(a, va, vb)
      ensures Translate(a, mem', root, vb) == Translate(a, mem, root, vb)
    {
      LeafPage(a, va, vb);
      OtherSlot(a, mem, mem', root, homes, root, vb, 0, ALL, t, a.index(va, a.levels - 1));
    }
  }

  lemma PageMapped(a: Arch, mem0: Memory, mem: Memory, mem': Memory, root: Word, homes: Homes, va: Word, t: Word, frame: Word, perm: bv32)
    requires Lawful(a) && a.isFrame(frame) && SameTranslations(a, mem0, mem, root) && LeadsToLeaf(a, mem', root, va, 0, t)
    requires Get(mem', t, a.index(va, a.levels - 1)) == a.makePage(frame, perm)
    requires forall vb :: !SamePage(a, va, vb) ==> Translate(a, mem', root, vb) == Translate(a, mem, root, vb)
    ensures OnePage(a, mem0, mem', root, va, frame, perm)
  {
    hide SplitLaw, TableLaw;
    var n := a.levels - 1;
    assert PageOk(a, frame, perm);
    forall vb | SamePage(a, va, vb)
      ensures Translate(a, mem', root, vb) == Some(PageAt(a, mem', root, va, frame, perm, vb))
    {
      LeafPage(a, va, vb);
      SamePathLeads(a, mem', root, va, vb, 0, t, n);
      LeadsWalk(a, mem', root, vb, 0, t, n, ALL);
      var r := PathRights(a, mem', root, va, 0, n);
      assert Meet(ALL, r) == r;
      assert a.leafPa(a.makePage(frame, perm), n, vb) == InFrame(frame, vb);
    }
  }

  lemma CountedShared(a: Arch, fr: Frames, homes: Homes, frame: Word)
    requires Counted(a, fr, homes) && frame !in homes
    ensures Counted(a, fr.Shared(frame), homes)
  {
  }

  lemma CountedOne(a: Arch, homes: Homes, homes': Homes, fr: Frames, fr': Frames, n: Word)
    requires Counted(a, fr, homes) && a.isFrame(n) && homes'.Keys == homes.Keys + {n}
    requires fr'.tables == fr.tables + {n} && forall f :: fr'.Ref(f) == if f == n then 1 else fr.Ref(f)
    ensures Counted(a, fr', homes')
  {
  }

  /** Counting the reference before or after the tables were taken is the same. */
  lemma SharedLater(homes: Homes, homes': Homes, fr: Frames, fr': Frames, frame: Word)
    requires Took(homes, homes', fr, fr') && frame !in homes && frame !in fr.pool
    ensures Took(homes, homes', fr.Shared(frame), fr'.Shared(frame)) && frame !in homes'
  {
    assert (multiset(homes.Keys) + multiset(fr.pool))[frame] == 0;
    assert multiset(homes'.Keys)[frame] == 0;
    forall f
      ensures fr'.Shared(frame).Ref(f) == if f in homes' && f !in homes then 1 else fr.Shared(frame).Ref(f)
    {
      assert fr'.Ref(f) == if f in homes' && f !in homes then 1 else fr.Ref(f);
      assert fr'.Ref(frame) == fr.Ref(frame);
    }
  }

  // ---- Reading a user address ----

  /** What a user access needs of the rights found on the way. */
  predicate UserMay(r: Rights, write: bool) {
    r.user && r.read && (!write || r.write)
  }

  /** Not in the first page, and below `top`. */
  predicate UserBits(x: bv64, top: bv64) {
    0x1000 <= x < top
  }

  lemma UserBitsMean(x: bv64, top: bv64)
    ensures UserBits(x, top) <==> x >> 12 != 0 && x < top
  {
  }

  predicate UserReaches(t: Option<Translation>, write: bool) {
    t.Some? && UserMay(t.value.rights, write)
  }

  /** An address that translates for users to read, and to write if it is to be written. */
  lemma UserReach(t: Option<Translation>, write: bool)
    ensures UserReaches(t, write) <==> t.Some? && t.value.rights.user && t.value.rights.read && (write ==> t.value.rights.write)
  {
  }

  /** The kernel's software walk finds the address the translation gives, exactly when the
      translation lets a user at it. */
  method UserAddress(a: Arch, mem: Memory, pgdir: Option<Word>, va: Word, write: bool) returns (r: Result<Word>)
    requires Lawful(a)
    ensures r.Success? <==> pgdir.Some? && UserBits(va.bits, a.userTop) && UserReaches(Translate(a, mem, pgdir.value, va), write)
    ensures r.Success? ==> r.value == Translate(a, mem, pgdir.value, va).value.pa
    ensures r.Failure? ==> r.error == Invalid
  {
    hide TableLaw, SplitLaw, PageLaw, UserBits;
    if pgdir.None? || !UserBits(va.bits, a.userTop) {
      return Failure(Invalid);
    }
    var table := pgdir.value;
    var level := 0;
    ghost var rights := ALL;
    while level < a.levels
      invariant level <= a.levels && UserMay(rights, write)
      invariant Translate(a, mem, pgdir.value, va) == WalkFrom(a, mem, table, va, level, rights)
    {
      var entry := Get(mem, table, a.index(va, level));
      if !a.present(entry) {
        return Failure(Invalid);
      }
      if level == a.levels - 1 || a.isBlock(entry) {
        if !UserMay(a.leafRights(entry), write) {
          return Failure(Invalid);
        }
        return Success(a.leafPa(entry, level, va));
      }
      var tr := a.tableRights(entry);
      if !(tr.user && (!write || tr.write)) {
        NoMore(a, mem, a.addr(entry), va, level + 1, Meet(rights, tr), write);
        return Failure(Invalid);
      }
      table, level, rights := a.addr(entry), level + 1, Meet(rights, tr);
    }
    return Failure(Invalid);
  }

  /** Rights only shrink on the way down. */
  lemma {:induction false} NoMore(a: Arch, mem: Memory, frame: Word, va: Word, l: nat, r: Rights, write: bool)
    requires !UserMay(r, write)
    ensures !UserReaches(WalkFrom(a, mem, frame, va, l, r), write)
    decreases a.levels - l
  {
    if l < a.levels {
      var e := Get(mem, frame, a.index(va, l));
      if a.present(e) && !(l == a.levels - 1 || a.isBlock(e)) {
        NoMore(a, mem, a.addr(e), va, l + 1, Meet(r, a.tableRights(e)), write);
      }
    }
  }

  // ---- Paths of tables ----

  lemma OnPathAt(a: Arch, mem: Memory, root: Word, homes: Homes, va: Word, tabs: seq<Word>, k: nat)
    requires OnPath(a, mem, root, homes, va, tabs) && k < |tabs|
    ensures tabs[k] in homes && homes[tabs[k]] == Place(k, Path(a, va, k))
    ensures 0 < |tabs| && tabs[0] == root
    ensures k + 1 < |tabs| ==> IsTable(a, Get(mem, tabs[k], a.index(va, k))) && a.addr(Get(mem, tabs[k], a.index(va, k))) == tabs[k + 1]
  {
    assert StepOk(a, mem, homes, va, tabs, k);
  }

  lemma PathFrom(a: Arch, mem: Memory, root: Word, homes: Homes, va: Word, tabs: seq<Word>)
    requires |tabs| > 0 && tabs[0] == root && forall k :: 0 <= k < |tabs| ==> StepOk(a, mem, homes, va, tabs, k)
    ensures OnPath(a, mem, root, homes, va, tabs)
  {
  }

  lemma PathMore(a: Arch, mem: Memory, root: Word, homes: Homes, va: Word, tabs: seq<Word>, t: Word)
    requires OnPath(a, mem, root, homes, va, tabs)
    requires t in homes && homes[t] == Place(|tabs|, Path(a, va, |tabs|))
    requires var e := Get(mem, tabs[|tabs| - 1], a.index(va, |tabs| - 1)); IsTable(a, e) && a.addr(e) == t
    ensures OnPath(a, mem, root, homes, va, tabs + [t])
  {
    hide Path, IsTable;
    forall k | 0 <= k < |tabs| + 1
      ensures StepOk(a, mem, homes, va, tabs + [t], k)
    {
      if k < |tabs| {
        OnPathAt(a, mem, root, homes, va, tabs, k);
      }
    }
  }

  lemma ZeroIsNoTable(a: Arch)
    requires Lawful(a)
    ensures !IsTable(a, ZERO)
  {
  }

  lemma {:induction false} PathLeads(a: Arch, mem: Memory, root: Word, homes: Homes, va: Word, tabs: seq<Word>, k: nat)
    requires OnPath(a, mem, root, homes, va, tabs) && k < |tabs|
    ensures Leads(a, mem, tabs[k], va, k, tabs[|tabs| - 1], |tabs| - 1)
    decreases |tabs| - k
  {
    OnPathAt(a, mem, root, homes, va, tabs, k);
    if k + 1 < |tabs| {
      PathLeads(a, mem, root, homes, va, tabs, k + 1);
    }
  }

  /** A store into the last table's slot for `va` leaves the path. */
  lemma PathAbove(a: Arch, mem: Memory, mem': Memory, root: Word, homes: Homes, va: Word, tabs: seq<Word>)
    requires OnPath(a, mem, root, homes, va, tabs)
    requires forall f, j :: f in homes && f != tabs[|tabs| - 1] ==> Get(mem', f, j) == Get(mem, f, j)
    ensures OnPath(a, mem', root, homes, va, tabs)
  {
    OnPathAt(a, mem, root, homes, va, tabs, |tabs| - 1);
    forall k | 0 <= k < |tabs|
      ensures StepOk(a, mem', homes, va, tabs, k)
    {
      OnPathAt(a, mem, root, homes, va, tabs, k);
    }
  }

  /** Cutting the last table off leaves the path above it. */
  lemma PathCut(a: Arch, mem: Memory, mem': Memory, root: Word, homes: Homes, va: Word, tabs: seq<Word>)
    requires OnPath(a, mem, root, homes, va, tabs) && |tabs| > 1
    requires mem' == mem[(tabs[|tabs| - 2], a.index(va, |tabs| - 2)) := ZERO]
    ensures OnPath(a, mem', root, homes - {tabs[|tabs| - 1]}, va, tabs[..|tabs| - 1])
  {
    hide OnPath, Path;
    var n := |tabs| - 1;
    var cut, homes' := tabs[..n], homes - {tabs[n]};
    OnPathAt(a, mem, root, homes, va, tabs, n);
    OnPathAt(a, mem, root, homes, va, tabs, n - 1);
    forall k | 0 <= k < n
      ensures cut[k] in homes' && StepOk(a, mem', homes', va, cut, k)
    {
      OnPathAt(a, mem, root, homes, va, tabs, k);
    }
    OnPathAt(a, mem, root, homes, va, tabs, 0);
    PathFrom(a, mem', root, homes', va, cut);
  }

  /** The cleared page is gone. */
  lemma ClearedPage(a: Arch, mem: Memory, mem': Memory, root: Word, homes: Homes, va: Word, t: Word)
    requires Lawful(a) && LeadsToLeaf(a, mem', root, va, 0, t) && Get(mem', t, a.index(va, a.levels - 1)) == ZERO
    ensures forall vb :: SamePage(a, va, vb) ==> Translate(a, mem', root, vb) == None
  {
    forall vb | SamePage(a, va, vb)
      ensures Translate(a, mem', root, vb) == None
    {
      LeafPage(a, va, vb);
      SamePathLeads(a, mem', root, va, vb, 0, t, a.levels - 1);
      LeadsWalk(a, mem', root, vb, 0, t, a.levels - 1, ALL);
    }
  }

  lemma GaveNone(homes: Homes, fr: Frames)
    ensures Gave(homes, homes, fr, fr)
  {
  }

  lemma GaveKeeps(homes: Homes, homes': Homes, fr: Frames, fr': Frames)
    requires Gave(homes, homes', fr, fr')
    ensures forall f :: f in homes' ==> f in homes && homes'[f] == homes[f]
  {
  }

  lemma NoChange(a: Arch, va: Word, mem: Memory, root: Word, homes: Homes)
    ensures OnlyPath(a, va, mem, mem, homes, homes) && SameTranslations(a, mem, mem, root)
  {
  }

  lemma LeafCutOnly(a: Arch, va: Word, mem: Memory, mem': Memory, homes: Homes, t: Word)
    requires a.levels > 0 && t in homes && homes[t] == Place(a.levels - 1, Path(a, va, a.levels - 1))
    requires mem' == mem[(t, a.index(va, a.levels - 1)) := ZERO]
    ensures OnlyPath(a, va, mem, mem', homes, homes)
  {
  }

  lemma OnlyAgain(a: Arch, va: Word, mem0: Memory, mem: Memory, mem': Memory, homes: Homes, homes': Homes)
    requires OnlyPath(a, va, mem0, mem, homes, homes) && OnlyPath(a, va, mem, mem', homes, homes')
    requires forall f :: f in homes' ==> f in homes && homes'[f] == homes[f]
    ensures OnlyPath(a, va, mem0, mem', homes, homes')
  {
    hide Passes, OnPathOf;
  }

  /** The leaf of `va` was cleared, or there is none; the pruning after that changes no translation. */
  lemma PageCleared(a: Arch, va: Word, mem0: Memory, mem: Memory, mem': Memory, root: Word)
    requires SameTranslations(a, mem, mem', root)
    requires (exists t :: LeadsToLeaf(a, mem0, root, va, 0, t)) ==>
               forall vb :: Translate(a, mem, root, vb) == if SamePage(a, va, vb) then None else Translate(a, mem0, root, vb)
    requires (forall t :: !LeadsToLeaf(a, mem0, root, va, 0, t)) ==> mem == mem0
    ensures Cleared(a, mem0, mem', root, va)
    ensures forall vb :: !SamePage(a, va, vb) ==> Translate(a, mem', root, vb) == Translate(a, mem0, root, vb)
  {
    hide Translate, SamePage, LeadsToLeaf;
  }

  lemma SameAgain(a: Arch, mem0: Memory, mem: Memory, mem': Memory, root: Word)
    requires SameTranslations(a, mem0, mem, root) && SameTranslations(a, mem, mem', root)
    ensures SameTranslations(a, mem0, mem', root)
  {
  }

  lemma CutOnly(a: Arch, va: Word, mem: Memory, mem': Memory, homes: Homes, homes': Homes, p: Word, t: Word)
    requires OnlyPath(a, va, mem, mem', homes, homes') && p in homes' && OnPathOf(a, va, homes'[p])
    requires t in homes' && OnPathOf(a, va, homes'[t]) && forall f :: f in homes' ==> f in homes && homes'[f] == homes[f]
    ensures OnlyPath(a, va, mem, mem'[(p, a.index(va, homes'[p].level)) := ZERO], homes, homes' - {t})
  {
    hide Path;
  }

  lemma GaveOne(homes: Homes, homes': Homes, fr: Frames, fr': Frames, t: Word)
    requires Gave(homes, homes', fr, fr') && t in homes'
    ensures Gave(homes, homes' - {t}, fr, fr'.Freed(t))
  {
    assert multiset((homes' - {t}).Keys) + multiset{t} == multiset(homes'.Keys);
  }

  /** Below a slot that holds no table there is no table. */
  lemma {:induction false} NoDeeper(a: Arch, mem: Memory, root: Word, homes: Homes, va: Word, u: Word, t: Word)
    requires Tree(a, mem, root, homes) && u in homes && OnPathOf(a, va, homes[u]) && !IsTable(a, Get(mem, u, a.index(va, homes[u].level)))
    requires t in homes && OnPathOf(a, va, homes[t])
    ensures homes[t].level <= homes[u].level
    decreases homes[t].level
  {
    hide Tree, Path, IsTable;
    var k := homes[t].level;
    if k > homes[u].level {
      var p := ParentOnPath(a, mem, root, homes, va, t);
      if k - 1 == homes[u].level {
        SamePlace(a, mem, root, homes, p, u);
      } else {
        NoDeeper(a, mem, root, homes, va, u, p);
      }
    }
  }

  lemma ParentOnPath(a: Arch, mem: Memory, root: Word, homes: Homes, va: Word, t: Word) returns (p: Word)
    requires Tree(a, mem, root, homes) && t in homes && OnPathOf(a, va, homes[t]) && homes[t].level > 0
    ensures p in homes && homes[p] == Place(homes[t].level - 1, Path(a, va, homes[t].level - 1))
    ensures IsTable(a, Get(mem, p, a.index(va, homes[p].level)))
  {
    hide Homed;
    var k := homes[t].level;
    assert t != root by { RootPlace(a, mem, root, homes, va); }
    p :| HangsFrom(a, mem, homes, p, t);
    PathNext(a, va, k - 1);
    SnocInjective(homes[p].path, homes[t].path[|homes[t].path| - 1], Path(a, va, k - 1), a.index(va, k - 1));
  }

  /** The walk of `va` from the root reaches the tables on its path. */
  lemma {:induction false} HomeLeads(a: Arch, mem: Memory, root: Word, homes: Homes, va: Word, t: Word)
    requires Tree(a, mem, root, homes) && t in homes && OnPathOf(a, va, homes[t]) && homes[t].level < a.levels
    ensures Leads(a, mem, root, va, 0, t, homes[t].level)
    decreases homes[t].level
  {
    hide Tree;
    if homes[t].level == 0 {
      RootPlace(a, mem, root, homes, va);
      SamePlace(a, mem, root, homes, t, root);
    } else {
      var p := ParentOnPath(a, mem, root, homes, va, t);
      var k := homes[p].level;
      HomeLeads(a, mem, root, homes, va, p);
      LeadsOn(a, mem, root, va, 0, p, k);
      EntryHome(a, mem, root, homes, p, a.index(va, k));
      PathNext(a, va, k);
      SamePlace(a, mem, root, homes, t, a.addr(Get(mem, p, a.index(va, k))));
    }
  }

  /** With the last table of the path kept, no empty allocated table is left on it. */
  lemma NoEmptyLeft(a: Arch, mem: Memory, root: Word, homes: Homes, va: Word, tabs: seq<Word>, tables: set<Word>)
    requires Lawful(a) && Tree(a, mem, root, homes) && OnPath(a, mem, root, homes, va, tabs) && 0 < |tabs| <= a.levels
    requires |tabs| == a.levels || !IsTable(a, Get(mem, tabs[|tabs| - 1], a.index(va, |tabs| - 1)))
    requires |tabs| == 1 || !EmptyTable(mem, tabs[|tabs| - 1]) || tabs[|tabs| - 1] !in tables
    ensures forall t :: t in homes && t != root && OnPathOf(a, va, homes[t]) && t in tables ==> !EmptyTable(mem, t)
  {
    hide Lawful, Tree, EmptyTable, OnPath, Path, IsTable;
    var d := |tabs| - 1;
    OnPathAt(a, mem, root, homes, va, tabs, d);
    forall t | t in homes && t != root && OnPathOf(a, va, homes[t]) && t in tables
      ensures !EmptyTable(mem, t)
    {
      var k := homes[t].level;
      LevelBound(a, mem, root, homes, t);
      if |tabs| < a.levels {
        NoDeeper(a, mem, root, homes, va, tabs[d], t);
      }
      OnPathAt(a, mem, root, homes, va, tabs, k);
      SamePlace(a, mem, root, homes, t, tabs[k]);
      if k < d {
        TableInSlot(a, mem, t, va, k);
      }
    }
  }

  lemma LevelBound(a: Arch, mem: Memory, root: Word, homes: Homes, t: Word)
    requires Tree(a, mem, root, homes) && t in homes
    ensures homes[t].level < a.levels
  {
  }

  lemma SamePlace(a: Arch, mem: Memory, root: Word, homes: Homes, t: Word, u: Word)
    requires Tree(a, mem, root, homes) && t in homes && u in homes && homes[t] == homes[u]
    ensures t == u
  {
  }

  lemma TableInSlot(a: Arch, mem: Memory, t: Word, va: Word, l: nat)
    requires Lawful(a) && IsTable(a, Get(mem, t, a.index(va, l)))
    ensures !EmptyTable(mem, t)
  {
  }
}
