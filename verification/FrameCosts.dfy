/** How many frames the user half of an address space takes: one for each page and one for each
    table above a page. */
module FrameCosts {
  import opened PageTables
  import opened PageTrees
  import opened AddressSpaces
  import opened UserFrames

  /** The places that are taken in the user half, of tables and of pages. */
  ghost function Taken(homes: Homes, pages: Paths): set<seq<Index>> {
    (set f | f in homes && UserPath(homes[f].path) :: homes[f].path) + (set f | f in pages :: pages[f])
  }

  /** The places on the way to the page of `va`, with its own. */
  ghost function Chain(a: Arch, va: Word): set<seq<Index>> {
    set l | 0 < l <= a.levels :: Path(a, va, l)
  }

  lemma {:induction false} SameSize(paths: Paths, s: set<Word>)
    requires s <= paths.Keys && forall f, g :: f in paths && g in paths && paths[f] == paths[g] ==> f == g
    ensures |set f | f in s :: paths[f]| == |s|
  {
    var image := set f | f in s :: paths[f];
    if s == {} {
      assert image == {};
    } else {
      var f :| f in s;
      SameSize(paths, s - {f});
      assert image == (set g | g in s - {f} :: paths[g]) + {paths[f]};
      assert paths[f] !in (set g | g in s - {f} :: paths[g]);
    }
  }

  /** Each place holds one frame. */
  lemma TakenSize(a: Arch, mem: Memory, root: Word, homes: Homes, pages: Paths, tables: set<Word>)
    requires Tree(a, mem, root, homes) && PagesOk(a, mem, homes, pages)
    requires forall f :: f in tables <==> f in homes && UserPath(homes[f].path)
    ensures |Taken(homes, pages)| == |tables| + |pages|
  {
    hide Tree, PagesOk, PathsOf, Taken, UserPath;
    var paths := PathsOf(homes, pages);
    PagesApart(a, mem, homes, pages);
    forall f, g | f in paths && g in paths && paths[f] == paths[g]
      ensures f == g
    {
      PathsInjective(a, mem, root, homes, pages, f, g);
    }
    TakenPlaces(homes, pages, tables);
    SameSize(paths, tables + pages.Keys);
    assert |tables + pages.Keys| == |tables| + |pages.Keys| by { assert tables !! pages.Keys; }
  }

  lemma TakenPlaces(homes: Homes, pages: Paths, tables: set<Word>)
    requires forall f :: f in tables <==> f in homes && UserPath(homes[f].path)
    requires forall f :: f in pages ==> f !in homes
    ensures tables + pages.Keys <= PathsOf(homes, pages).Keys
    ensures (set f | f in tables + pages.Keys :: PathsOf(homes, pages)[f]) == Taken(homes, pages)
  {
    hide UserPath;
    var paths := PathsOf(homes, pages);
    assert forall f :: f in pages ==> paths[f] == pages[f];
    assert forall f :: f in tables ==> paths[f] == homes[f].path;
    var all := set f | f in tables + pages.Keys :: paths[f];
    forall p | p in Taken(homes, pages)
      ensures p in all
    {
      if p in (set f | f in pages :: pages[f]) {
        var f :| f in pages && pages[f] == p;
        assert f in tables + pages.Keys;
      } else {
        var f :| f in homes && UserPath(homes[f].path) && homes[f].path == p;
        assert f in tables + pages.Keys;
      }
    }
    forall p | p in all
      ensures p in Taken(homes, pages)
    {
      var f :| f in tables + pages.Keys && paths[f] == p;
      if f in pages {
        assert p in (set g | g in pages :: pages[g]);
      } else {
        assert p in (set g | g in homes && UserPath(homes[g].path) :: homes[g].path);
      }
    }
  }

  /** A mapped page has taken all the places on its way. */
  lemma ChainTaken(a: Arch, mem: Memory, root: Word, homes: Homes, pages: Paths, va: Word, f: Word)
    requires Tree(a, mem, root, homes) && PagesOk(a, mem, homes, pages) && f in pages && pages[f] == Path(a, va, a.levels) && a.index(va, 0) < 256
    ensures Chain(a, va) <= Taken(homes, pages)
  {
    hide Tree, PagesOk, Path, FrameTree, Taken;
    var paths := PathsOf(homes, pages);
    TreeOfFrames(a, mem, root, homes, pages);
    forall p | p in Chain(a, va)
      ensures p in Taken(homes, pages)
    {
      var l :| 0 < l <= a.levels && p == Path(a, va, l);
      var u := Ancestor(a, mem, paths, f, l);
      assert Path(a, va, a.levels)[..l] == Path(a, va, l);
      PlaceTaken(homes, pages, u);
    }
  }

  lemma PlaceTaken(homes: Homes, pages: Paths, u: Word)
    requires u in PathsOf(homes, pages) && UserPath(PathsOf(homes, pages)[u])
    ensures PathsOf(homes, pages)[u] in Taken(homes, pages)
  {
    hide UserPath;
    if u in pages {
      assert pages[u] in (set f | f in pages :: pages[f]);
    } else {
      assert homes[u].path in (set f | f in homes && UserPath(homes[f].path) :: homes[f].path);
    }
  }

  /** Growing towards `va` takes places on its way only. */
  lemma GrowTakes(a: Arch, va: Word, mem: Memory, mem': Memory, root: Word, homes: Homes, homes': Homes, pages: Paths)
    requires Tree(a, mem', root, homes') && root in homes && GrewAlong(a, va, mem, mem', homes, homes', a.levels - 1)
    ensures Taken(homes, pages) <= Taken(homes', pages) <= Taken(homes, pages) + Chain(a, va)
  {
    hide Tree, Path, NoBlocksOn, NewArePlain, TablesStay, ChangedToTables;
    forall f | f in homes'
      ensures homes'[f].level < a.levels && |homes'[f].path| == homes'[f].level
    {
      PathLength(a, mem', root, homes', f);
      LevelBelow(a, mem', root, homes', f);
    }
    forall p | p in Taken(homes', pages)
      ensures p in Taken(homes, pages) + Chain(a, va)
    {
      if p !in (set f | f in pages :: pages[f]) {
        var f :| f in homes' && UserPath(homes'[f].path) && homes'[f].path == p;
        if f in homes {
          assert p in Taken(homes, pages);
        } else {
          assert p == Path(a, va, homes'[f].level);
        }
      }
    }
    forall p | p in Taken(homes, pages)
      ensures p in Taken(homes', pages)
    {
      if p !in (set f | f in pages :: pages[f]) {
        var f :| f in homes && UserPath(homes[f].path) && homes[f].path == p;
        assert f in homes' && homes'[f].path == p;
      }
    }
  }

  /** Adding the page of `va` to the pages takes its place. */
  lemma PageTakes(a: Arch, homes: Homes, pages: Paths, va: Word, f: Word)
    requires f !in pages && a.levels > 0
    ensures Taken(homes, pages[f := Path(a, va, a.levels)]) == Taken(homes, pages) + {Path(a, va, a.levels)}
    ensures Path(a, va, a.levels) in Chain(a, va)
  {
    hide Path, UserPath;
    var path := Path(a, va, a.levels);
    var pages' := pages[f := path];
    assert (set g | g in pages' :: pages'[g]) == (set g | g in pages :: pages[g]) + {path} by {
      assert forall g :: g in pages ==> pages'[g] == pages[g];
      assert pages'[f] == path;
    }
  }

  /** A page that is not mapped has not taken its place, nor has a leaf table that is not there. */
  lemma NotTaken(a: Arch, mem: Memory, root: Word, homes: Homes, pages: Paths, va: Word)
    requires Tree(a, mem, root, homes) && PagesOk(a, mem, homes, pages) && a.levels > 0
    requires forall f :: f in pages ==> pages[f] != Path(a, va, a.levels)
    ensures Path(a, va, a.levels) in Chain(a, va) && Path(a, va, a.levels) !in Taken(homes, pages)
    ensures (forall t :: !LeadsToLeaf(a, mem, root, va, 0, t)) ==>
              a.levels > 1 && Path(a, va, a.levels - 1) in Chain(a, va) && Path(a, va, a.levels - 1) !in Taken(homes, pages)
  {
    hide Tree, PagesOk, Path, Leads;
    PagesApart(a, mem, homes, pages);
    forall f | f in homes
      ensures |homes[f].path| == homes[f].level < a.levels
    {
      PathLength(a, mem, root, homes, f);
      LevelBelow(a, mem, root, homes, f);
    }
    RootLeads(a, mem, root, va);
    forall f | f in homes && homes[f].path == Path(a, va, a.levels - 1)
      ensures LeadsToLeaf(a, mem, root, va, 0, f)
    {
      HomeLeads(a, mem, root, homes, va, f);
    }
    assert a.levels == 1 ==> LeadsToLeaf(a, mem, root, va, 0, root);
  }

  lemma RootLeads(a: Arch, mem: Memory, root: Word, va: Word)
    ensures Leads(a, mem, root, va, 0, root, 0)
  {
  }

  /** With no frame left, or one that a table is missing for, the way to `va` cannot be had. */
  lemma TooMany(a: Arch, mem: Memory, root: Word, homes: Homes, pages: Paths, va: Word, free: nat, all: nat)
    requires Tree(a, mem, root, homes) && PagesOk(a, mem, homes, pages) && a.levels > 0
    requires forall f :: f in pages ==> pages[f] != Path(a, va, a.levels)
    requires free + |Taken(homes, pages)| + 1 == all
    requires free == 0 || (free == 1 && forall t :: !LeadsToLeaf(a, mem, root, va, 0, t))
    ensures |Taken(homes, pages) + Chain(a, va)| >= all
  {
    hide Tree, PagesOk, Path, LeadsToLeaf, Taken, Chain;
    NotTaken(a, mem, root, homes, pages, va);
    var taken, path := Taken(homes, pages), Path(a, va, a.levels);
    var missing := if free == 0 then {path} else {path, Path(a, va, a.levels - 1)};
    assert free == 1 ==> |path| != |Path(a, va, a.levels - 1)|;
    assert |taken + missing| == |taken| + |missing|;
    Subset(taken + missing, taken + Chain(a, va));
  }

  lemma {:induction false} Subset<T>(s: set<T>, t: set<T>)
    requires s <= t
    ensures |s| <= |t|
  {
    if s != {} {
      var x :| x in s;
      Subset(s - {x}, t - {x});
    }
  }
}
