/** The tables of an address space form a tree: every table but the root hangs in one slot. */
module PageTrees {
  import opened Errors
  import opened PageTables

  // ---- Every table hangs somewhere ----

  /** Table `f` hangs in a slot of table `p`. */
  ghost predicate HangsFrom(a: Arch, mem: Memory, homes: Homes, p: Word, f: Word)
    requires f in homes
  {
    && p in homes && |homes[f].path| > 0
    && var i := homes[f].path[|homes[f].path| - 1];
       && homes[f] == Place(homes[p].level + 1, homes[p].path + [i])
       && IsTable(a, Get(mem, p, i)) && a.addr(Get(mem, p, i)) == f
  }

  /** Places are not shared, and every table but the root hangs in its place. */
  ghost predicate Linked(a: Arch, mem: Memory, root: Word, homes: Homes) {
    && (forall f, g :: f in homes && g in homes && homes[f] == homes[g] ==> f == g)
    && forall f :: f in homes && f != root ==> exists p :: HangsFrom(a, mem, homes, p, f)
  }

  lemma SnocInjective<T>(p: seq<T>, i: T, q: seq<T>, j: T)
    requires p + [i] == q + [j]
    ensures p == q && i == j
  {
    assert |p + [i]| == |q + [j]|;
    assert p == (p + [i])[..|p|] && q == (q + [j])[..|q|];
    assert (p + [i])[|p|] == i && (q + [j])[|q|] == j;
  }

  /** The slot a table hangs in leads to it. */
  lemma SlotOfTable(a: Arch, mem: Memory, root: Word, homes: Homes, t: Word, i: Index, f: Word)
    requires Linked(a, mem, root, homes) && t in homes && f in homes && f != root
    requires homes[f] == Place(homes[t].level + 1, homes[t].path + [i])
    ensures IsTable(a, Get(mem, t, i)) && a.addr(Get(mem, t, i)) == f
  {
    var p :| HangsFrom(a, mem, homes, p, f);
    SnocInjective(homes[p].path, homes[f].path[|homes[f].path| - 1], homes[t].path, i);
    assert homes[p] == homes[t];
  }

  /** A table goes on hanging while its parent's slot stays as it is. */
  lemma StillHangs(a: Arch, mem: Memory, mem': Memory, homes: Homes, homes': Homes, p: Word, f: Word)
    requires f in homes && HangsFrom(a, mem, homes, p, f) && f in homes' && homes'[f] == homes[f] && p in homes' && homes'[p] == homes[p]
    requires forall j :: IsTable(a, Get(mem, p, j)) && a.addr(Get(mem, p, j)) == f ==> Get(mem', p, j) == Get(mem, p, j)
    ensures HangsFrom(a, mem', homes', p, f)
  {
  }

  lemma HangKeepsLinked(a: Arch, mem: Memory, mem': Memory, root: Word, homes: Homes, t: Word, i: Index, n: Word)
    requires Lawful(a) && Homed(a, mem, root, homes) && Linked(a, mem, root, homes) && t in homes && homes[t].level + 1 < a.levels
    requires n !in homes && a.isFrame(n) && !IsTable(a, Get(mem, t, i)) && Hangs(a, mem, mem', homes, t, i, n)
    ensures Linked(a, mem', root, homes[n := Place(homes[t].level + 1, homes[t].path + [i])])
  {
    hide HangsFrom, SplitLaw, PageLaw;
    var place := Place(homes[t].level + 1, homes[t].path + [i]);
    var homes' := homes[n := place];
    forall f | f in homes
      ensures homes[f] != place
      ensures f != root ==> exists p :: HangsFrom(a, mem', homes', p, f)
    {
      if f != root {
        if homes[f] == place {
          SlotOfTable(a, mem, root, homes, t, i, f);
        }
        var p :| HangsFrom(a, mem, homes, p, f);
        ParentIn(a, mem, homes, p, f);
        StillHangs(a, mem, mem', homes, homes', p, f);
      }
    }
    NewHangs(a, mem', homes', t, i, n);
  }

  lemma ParentIn(a: Arch, mem: Memory, homes: Homes, p: Word, f: Word)
    requires f in homes && HangsFrom(a, mem, homes, p, f)
    ensures p in homes && homes[f].level == homes[p].level + 1
    ensures exists j :: IsTable(a, Get(mem, p, j)) && a.addr(Get(mem, p, j)) == f
  {
  }

  lemma NewHangs(a: Arch, mem: Memory, homes: Homes, t: Word, i: Index, n: Word)
    requires t in homes && n in homes && homes[n] == Place(homes[t].level + 1, homes[t].path + [i])
    requires IsTable(a, Get(mem, t, i)) && a.addr(Get(mem, t, i)) == n
    ensures HangsFrom(a, mem, homes, t, n)
  {
    assert homes[n].path[|homes[n].path| - 1] == i;
  }

  /** The tree is untouched by stores into leaf slots and into frames outside it. */
  lemma SameTablesLinked(a: Arch, mem: Memory, mem': Memory, root: Word, homes: Homes)
    requires Homed(a, mem, root, homes) && Linked(a, mem, root, homes)
    requires forall f, j :: f in homes && homes[f].level + 1 < a.levels ==> Get(mem', f, j) == Get(mem, f, j)
    ensures Linked(a, mem', root, homes)
  {
    forall f | f in homes && f != root
      ensures exists p :: HangsFrom(a, mem', homes, p, f)
    {
      var p :| HangsFrom(a, mem, homes, p, f);
      assert HangsFrom(a, mem', homes, p, f);
    }
  }

  // ---- Pruning ----

  /** No slot of table `t` holds anything. */
  ghost predicate EmptyTable(mem: Memory, t: Word) {
    forall i :: Get(mem, t, i) == ZERO
  }

  /** Cutting an empty table off changes no translation. */
  lemma PruneKeeps(a: Arch, mem: Memory, mem': Memory, root: Word, homes: Homes, p: Word, i: Index, t: Word)
    requires Lawful(a) && Homed(a, mem, root, homes) && p in homes && homes[p].level + 1 < a.levels
    requires IsTable(a, Get(mem, p, i)) && a.addr(Get(mem, p, i)) == t && EmptyTable(mem, t)
    requires Get(mem', p, i) == ZERO && forall f, j :: f in homes && (f, j) != (p, i) ==> Get(mem', f, j) == Get(mem, f, j)
    ensures SameTranslations(a, mem, mem', root)
  {
    hide SplitLaw, PageLaw, TableLaw;
    var l := homes[p].level;
    forall va
      ensures Translate(a, mem', root, va) == Translate(a, mem, root, va)
    {
      if Passes(a, va, homes[p], i) {
        forall r
          ensures WalkFrom(a, mem', p, va, l, r) == WalkFrom(a, mem, p, va, l, r)
        {
          assert WalkFrom(a, mem, t, va, l + 1, Meet(r, a.tableRights(Get(mem, p, i)))) == None;
        }
      }
      SameFromTable(a, mem, mem', root, homes, root, va, 0, ALL, p, i);
    }
  }

  lemma PruneKeepsHomed(a: Arch, mem: Memory, mem': Memory, root: Word, homes: Homes, p: Word, i: Index, t: Word)
    requires Lawful(a) && Homed(a, mem, root, homes) && Linked(a, mem, root, homes)
    requires p in homes && homes[p].level + 1 < a.levels && IsTable(a, Get(mem, p, i)) && a.addr(Get(mem, p, i)) == t
    requires Get(mem', p, i) == ZERO && forall f, j :: f in homes && (f, j) != (p, i) ==> Get(mem', f, j) == Get(mem, f, j)
    ensures t in homes && t != root && t != p
    ensures Homed(a, mem', root, homes - {t})
  {
    hide HangsFrom, SplitLaw, PageLaw, TableLaw;
    var homes' := homes - {t};
    forall f, j | f in homes' && homes'[f].level + 1 < a.levels && IsTable(a, Get(mem', f, j))
      ensures a.addr(Get(mem', f, j)) != t && Get(mem', f, j) == Get(mem, f, j)
    {
      OtherChild(a, mem, root, homes, p, i, f, j);
    }
  }

  /** Another slot does not lead to the same table. */
  lemma OtherChild(a: Arch, mem: Memory, root: Word, homes: Homes, p: Word, i: Index, f: Word, j: Index)
    requires Homed(a, mem, root, homes) && Linked(a, mem, root, homes) && p in homes && f in homes && (f, j) != (p, i)
    requires homes[p].level + 1 < a.levels && IsTable(a, Get(mem, p, i)) && homes[f].level + 1 < a.levels && IsTable(a, Get(mem, f, j))
    ensures a.addr(Get(mem, f, j)) != a.addr(Get(mem, p, i))
  {
    hide HangsFrom;
    if a.addr(Get(mem, f, j)) == a.addr(Get(mem, p, i)) {
      SnocInjective(homes[f].path, j, homes[p].path, i);
      assert false;
    }
  }

  lemma PruneKeepsLinked(a: Arch, mem: Memory, mem': Memory, root: Word, homes: Homes, p: Word, i: Index, t: Word)
    requires !a.present(ZERO) && Linked(a, mem, root, homes) && p in homes && t in homes && IsTable(a, Get(mem, p, i)) && a.addr(Get(mem, p, i)) == t
    requires forall j :: !IsTable(a, Get(mem, t, j))
    requires Get(mem', p, i) == ZERO && forall f, j :: f in homes && (f, j) != (p, i) ==> Get(mem', f, j) == Get(mem, f, j)
    ensures Linked(a, mem', root, homes - {t})
  {
    hide HangsFrom;
    var homes' := homes - {t};
    forall f | f in homes' && f != root
      ensures exists q :: HangsFrom(a, mem', homes', q, f)
    {
      var q :| HangsFrom(a, mem, homes, q, f);
      ParentIn(a, mem, homes, q, f);
      StillHangs(a, mem, mem', homes, homes', q, f);
    }
  }

  // ---- The whole tree ----

  ghost predicate Tree(a: Arch, mem: Memory, root: Word, homes: Homes) {
    Homed(a, mem, root, homes) && Linked(a, mem, root, homes)
  }

  /** The tree with table `n` in slot `i` of `t`. */
  ghost function Grown(homes: Homes, t: Word, i: Index, n: Word): Homes
    requires t in homes
  {
    homes[n := Place(homes[t].level + 1, homes[t].path + [i])]
  }

  lemma GrowEmpty(a: Arch, mem: Memory, mem': Memory, root: Word, homes: Homes, t: Word, i: Index, n: Word)
    requires Lawful(a) && Tree(a, mem, root, homes) && t in homes && homes[t].level + 1 < a.levels
    requires n !in homes && a.isFrame(n) && !a.present(Get(mem, t, i))
    requires Hangs(a, mem, mem', homes, t, i, n) && forall j :: Get(mem', n, j) == ZERO
    ensures SameTranslations(a, mem, mem', root) && Tree(a, mem', root, Grown(homes, t, i, n))
  {
    hide SameTranslations, Linked, Homed, SplitLaw, PageLaw;
    EmptyTableKeeps(a, mem, mem', root, homes, t, i, n);
    HangKeepsHomed(a, mem, mem', root, homes, t, i, n);
    HangKeepsLinked(a, mem, mem', root, homes, t, i, n);
  }

  lemma GrowPieces(a: Arch, mem: Memory, mem': Memory, root: Word, homes: Homes, t: Word, i: Index, n: Word)
    requires Lawful(a) && Tree(a, mem, root, homes) && t in homes && homes[t].level + 1 < a.levels
    requires n !in homes && a.isFrame(n) && a.present(Get(mem, t, i)) && a.isBlock(Get(mem, t, i))
    requires Hangs(a, mem, mem', homes, t, i, n) && HoldsPieces(a, mem', n, Get(mem, t, i), homes[t].level)
    ensures SameTranslations(a, mem, mem', root) && Tree(a, mem', root, Grown(homes, t, i, n))
  {
    hide SameTranslations, Linked, Homed, HoldsPieces, Lawful;
    SplitKeeps(a, mem, mem', root, homes, t, i, n);
    if homes[t].level + 2 < a.levels {
      PiecesAreLeaves(a, mem', n, Get(mem, t, i), homes[t].level);
    }
    HangKeepsHomed(a, mem, mem', root, homes, t, i, n);
    HangKeepsLinked(a, mem, mem', root, homes, t, i, n);
  }

  lemma Prune(a: Arch, mem: Memory, mem': Memory, root: Word, homes: Homes, p: Word, i: Index, t: Word)
    requires Lawful(a) && Tree(a, mem, root, homes) && p in homes && homes[p].level + 1 < a.levels
    requires IsTable(a, Get(mem, p, i)) && a.addr(Get(mem, p, i)) == t && EmptyTable(mem, t)
    requires Get(mem', p, i) == ZERO && forall f, j :: f in homes && (f, j) != (p, i) ==> Get(mem', f, j) == Get(mem, f, j)
    ensures t in homes && t != root && t != p
    ensures SameTranslations(a, mem, mem', root) && Tree(a, mem', root, homes - {t})
  {
    hide SameTranslations, Linked, Homed, SplitLaw, PageLaw;
    PruneKeeps(a, mem, mem', root, homes, p, i, t);
    PruneKeepsHomed(a, mem, mem', root, homes, p, i, t);
    PruneKeepsLinked(a, mem, mem', root, homes, p, i, t);
  }
}
