/** The frames of a user address space as a tree, and what a teardown collects from it. */
module UserFrames {
  import opened Errors
  import opened PageTables
  import opened PageTrees
  import opened Sequences

  /** Frame to the indices that lead to it: tables of level `l` have `l` indices, pages have all. */
  type Paths = map<Word, seq<Index>>

  /** The lower half of the root's slots is the user's. */
  ghost predicate UserPath(path: seq<Index>) {
    |path| > 0 && path[0] < 256
  }

  /** The table or page that slot `i` of a table at level `l` leads to; blocks lead to none. */
  function Child(a: Arch, mem: Memory, t: Word, l: nat, i: Index): Option<Word> {
    var e := Get(mem, t, i);
    if !a.present(e) || (l + 1 < a.levels && a.isBlock(e)) then None else Some(a.addr(e))
  }

  /** `f` hangs in the last slot of its path, in the table the path before it leads to. */
  ghost predicate Hung(a: Arch, mem: Memory, paths: Paths, t: Word, f: Word)
    requires f in paths && |paths[f]| > 0
  {
    var n := |paths[f]| - 1;
    t in paths && paths[t] == paths[f][..n] && Child(a, mem, t, n, paths[f][n]) == Some(f)
  }

  /** The user part of the tree: slots lead to frames with the right path, every frame hangs in
      its place, and no two frames share one. */
  ghost predicate FrameTree(a: Arch, mem: Memory, paths: Paths) {
    && (forall t, i :: t in paths && |paths[t]| < a.levels && UserPath(paths[t] + [i]) ==>
          var c := Child(a, mem, t, |paths[t]|, i);
          c.Some? ==> c.value in paths && paths[c.value] == paths[t] + [i])
    && (forall f :: f in paths && UserPath(paths[f]) ==> |paths[f]| <= a.levels && exists t :: Hung(a, mem, paths, t, f))
    && forall f, g :: f in paths && g in paths && paths[f] == paths[g] ==> f == g
  }

  // ---- What teardown collects ----

  /** Everything below slot `i` of a table at level `l`, children before their table. */
  ghost function CollectSlot(a: Arch, mem: Memory, t: Word, l: nat, i: Index): seq<Word>
    decreases a.levels - l, 1, 0
  {
    var c := Child(a, mem, t, l, i);
    if c.None? || l >= a.levels then []
    else if l == a.levels - 1 then [c.value]
    else CollectTo(a, mem, c.value, l + 1, 512) + [c.value]
  }

  /** Everything below the first `k` slots. */
  ghost function CollectTo(a: Arch, mem: Memory, t: Word, l: nat, k: nat): seq<Word>
    requires k <= 512
    decreases a.levels - l, 2, k
  {
    if k == 0 then [] else CollectTo(a, mem, t, l, k - 1) + CollectSlot(a, mem, t, l, (k - 1) as Index)
  }

  ghost predicate Below(paths: Paths, f: Word, path: seq<Index>) {
    f in paths && |path| <= |paths[f]| && paths[f][..|path|] == path
  }

  /** `f` lies below one of the first `k` slots of the table at `path`. */
  ghost predicate BelowSome(paths: Paths, f: Word, path: seq<Index>, k: nat) {
    f in paths && |path| < |paths[f]| && paths[f][..|path|] == path && paths[f][|path|] as int < k
  }

  lemma Joined(s: seq<Word>, t: seq<Word>)
    requires NoRepeat(s) && NoRepeat(t) && forall f :: f in s ==> f !in t
    ensures NoRepeat(s + t)
  {
    var all := s + t;
    forall i, j | 0 <= i < j < |all|
      ensures all[i] != all[j]
    {
      if i < |s| <= j {
        assert all[i] in s && all[j] in t;
      }
    }
  }

  /** Every frame has an ancestor at each level above it. */
  lemma {:induction false} Ancestor(a: Arch, mem: Memory, paths: Paths, f: Word, m: nat) returns (u: Word)
    requires FrameTree(a, mem, paths) && f in paths && UserPath(paths[f]) && 0 < m <= |paths[f]|
    ensures u in paths && paths[u] == paths[f][..m]
    decreases |paths[f]|
  {
    if m == |paths[f]| {
      u := f;
      assert paths[f][..m] == paths[f];
    } else {
      var t :| Hung(a, mem, paths, t, f);
      u := Ancestor(a, mem, paths, t, m);
      assert paths[t][..m] == paths[f][..m];
    }
  }

  /** The frame whose path ends in slot `i` of `t` is the child there. */
  lemma ChildAt(a: Arch, mem: Memory, paths: Paths, t: Word, i: Index, u: Word)
    requires FrameTree(a, mem, paths) && t in paths && u in paths && paths[u] == paths[t] + [i] && UserPath(paths[u])
    ensures Child(a, mem, t, |paths[t]|, i) == Some(u) && |paths[t]| < a.levels
  {
    var p :| Hung(a, mem, paths, p, u);
    assert paths[u][..|paths[u]| - 1] == paths[t];
    assert p == t;
  }

  /** A slot collects exactly the frames below it, each once. */
  lemma {:induction false} SlotCollects(a: Arch, mem: Memory, paths: Paths, t: Word, l: nat, i: Index)
    requires FrameTree(a, mem, paths) && t in paths && |paths[t]| == l < a.levels && UserPath(paths[t] + [i])
    ensures forall f :: f in CollectSlot(a, mem, t, l, i) <==> Below(paths, f, paths[t] + [i])
    ensures NoRepeat(CollectSlot(a, mem, t, l, i))
    decreases a.levels - l, 1, 0
  {
    hide FrameTree, Below;
    var path, s := paths[t] + [i], CollectSlot(a, mem, t, l, i);
    forall f
      ensures Below(paths, f, path) <==> f in s
    {
      SlotCollectsOne(a, mem, paths, t, l, i, f);
    }
    var c := Child(a, mem, t, l, i);
    if c.Some? && l < a.levels - 1 {
      ChildPath(a, mem, paths, t, i);
      ToCollects(a, mem, paths, c.value, l + 1, 512);
      Joined(CollectTo(a, mem, c.value, l + 1, 512), [c.value]);
    }
  }

  lemma {:induction false} SlotCollectsOne(a: Arch, mem: Memory, paths: Paths, t: Word, l: nat, i: Index, f: Word)
    requires FrameTree(a, mem, paths) && t in paths && |paths[t]| == l < a.levels && UserPath(paths[t] + [i])
    ensures f in CollectSlot(a, mem, t, l, i) <==> Below(paths, f, paths[t] + [i])
    decreases a.levels - l, 0, 0
  {
    hide FrameTree;
    var path, s, c := paths[t] + [i], CollectSlot(a, mem, t, l, i), Child(a, mem, t, l, i);
    if c.Some? {
      ChildPath(a, mem, paths, t, i);
      if l < a.levels - 1 {
        ToCollects(a, mem, paths, c.value, l + 1, 512);
        BelowChild(paths, f, path);
        SameFrame(a, mem, paths, f, c.value);
      } else {
        LongPath(a, mem, paths, f, path);
        SameFrame(a, mem, paths, f, c.value);
      }
    }
    if Below(paths, f, path) {
      var u := Ancestor(a, mem, paths, f, l + 1);
      ChildAt(a, mem, paths, t, i, u);
    }
  }

  lemma ChildPath(a: Arch, mem: Memory, paths: Paths, t: Word, i: Index)
    requires FrameTree(a, mem, paths) && t in paths && |paths[t]| < a.levels && UserPath(paths[t] + [i])
    ensures var c := Child(a, mem, t, |paths[t]|, i); c.Some? ==> c.value in paths && paths[c.value] == paths[t] + [i]
  {
  }

  lemma SameFrame(a: Arch, mem: Memory, paths: Paths, f: Word, g: Word)
    requires FrameTree(a, mem, paths) && g in paths
    ensures f in paths && paths[f] == paths[g] ==> f == g
  {
  }

  /** Below a path is the frame at its end, or something below one of its slots. */
  lemma BelowChild(paths: Paths, f: Word, path: seq<Index>)
    ensures Below(paths, f, path) <==> (f in paths && paths[f] == path) || BelowSome(paths, f, path, 512)
  {
    if f in paths && |paths[f]| == |path| {
      assert paths[f][..|path|] == paths[f];
    }
  }

  /** Nothing hangs below a page. */
  lemma LongPath(a: Arch, mem: Memory, paths: Paths, f: Word, path: seq<Index>)
    requires FrameTree(a, mem, paths) && |path| == a.levels && UserPath(path)
    ensures Below(paths, f, path) <==> f in paths && paths[f] == path
  {
    if Below(paths, f, path) {
      assert paths[f][0] == paths[f][..|path|][0];
      assert paths[f][..|path|] == paths[f];
    }
  }

  lemma {:induction false} ToCollects(a: Arch, mem: Memory, paths: Paths, t: Word, l: nat, k: nat)
    requires FrameTree(a, mem, paths) && t in paths && |paths[t]| == l < a.levels && k <= 512
    requires UserPath(paths[t]) || (l == 0 && k <= 256)
    ensures forall f :: f in CollectTo(a, mem, t, l, k) <==> BelowSome(paths, f, paths[t], k)
    ensures NoRepeat(CollectTo(a, mem, t, l, k))
    decreases a.levels - l, 2, k
  {
    hide FrameTree, Child, Below;
    if k > 0 {
      var i := (k - 1) as Index;
      ToCollects(a, mem, paths, t, l, k - 1);
      SlotCollects(a, mem, paths, t, l, i);
      var s, z := CollectTo(a, mem, t, l, k - 1), CollectSlot(a, mem, t, l, i);
      forall f
        ensures f in s ==> f !in z
        ensures f in s + z <==> BelowSome(paths, f, paths[t], k)
      {
        BelowSlot(paths, f, paths[t], k - 1);
      }
      Joined(s, z);
    }
  }

  /** One more slot. */
  lemma BelowSlot(paths: Paths, f: Word, path: seq<Index>, k: nat)
    requires k < 512
    ensures BelowSome(paths, f, path, k + 1) <==> BelowSome(paths, f, path, k) || Below(paths, f, path + [k as Index])
    ensures BelowSome(paths, f, path, k) ==> !Below(paths, f, path + [k as Index])
  {
    var i := k as Index;
    if f in paths && |path| < |paths[f]| {
      assert paths[f][..|path| + 1] == paths[f][..|path|] + [paths[f][|path|]];
      assert (path + [i])[..|path|] == path && (path + [i])[|path|] == i;
    }
  }

  // ---- Tables and pages together ----

  /** The pages of the user half: present leaf slots hold them, and each hangs in one. */
  ghost predicate PagesOk(a: Arch, mem: Memory, homes: Homes, pages: Paths) {
    && (forall t, i :: t in homes && homes[t].level + 1 == a.levels && UserPath(homes[t].path + [i]) && a.present(Get(mem, t, i)) ==>
          a.addr(Get(mem, t, i)) in pages && pages[a.addr(Get(mem, t, i))] == homes[t].path + [i])
    && (forall f :: f in pages ==> |pages[f]| == a.levels > 0 && UserPath(pages[f]) && exists t :: PageIn(a, mem, homes, pages, t, f))
    && forall f :: f in pages ==> f !in homes
  }

  /** Page `f` sits in the last slot of its path, in leaf table `t`. */
  ghost predicate PageIn(a: Arch, mem: Memory, homes: Homes, pages: Paths, t: Word, f: Word)
    requires f in pages && |pages[f]| == a.levels > 0
  {
    var n := a.levels - 1;
    && t in homes && homes[t] == Place(n, pages[f][..n])
    && a.present(Get(mem, t, pages[f][n])) && a.addr(Get(mem, t, pages[f][n])) == f
  }

  /** No two pages have one path. */
  lemma PagesInjective(a: Arch, mem: Memory, root: Word, homes: Homes, pages: Paths, f: Word, g: Word)
    requires Tree(a, mem, root, homes) && PagesOk(a, mem, homes, pages) && f in pages && g in pages && pages[f] == pages[g]
    ensures f == g
  {
    var t :| PageIn(a, mem, homes, pages, t, f);
    var u :| PageIn(a, mem, homes, pages, u, g);
    assert homes[t] == homes[u];
  }

  /** A table of level `l` has `l` indices on its path. */
  lemma {:induction false} PathLength(a: Arch, mem: Memory, root: Word, homes: Homes, f: Word)
    requires Tree(a, mem, root, homes) && f in homes
    ensures |homes[f].path| == homes[f].level
    decreases homes[f].level
  {
    if f != root {
      var p :| HangsFrom(a, mem, homes, p, f);
      PathLength(a, mem, root, homes, p);
    }
  }

  ghost function PathsOf(homes: Homes, pages: Paths): Paths {
    (map f | f in homes :: homes[f].path) + pages
  }

  lemma TableHung(a: Arch, mem: Memory, root: Word, homes: Homes, pages: Paths, f: Word)
    requires Tree(a, mem, root, homes) && PagesOk(a, mem, homes, pages) && f in homes && f != root
    ensures |homes[f].path| > 0 && exists t :: Hung(a, mem, PathsOf(homes, pages), t, f)
  {
    hide PagesOk;
    PagesApart(a, mem, homes, pages);
    var paths := PathsOf(homes, pages);
    var p :| HangsFrom(a, mem, homes, p, f);
    PathLength(a, mem, root, homes, p);
    assert paths[p] == paths[f][..|paths[f]| - 1];
    assert Hung(a, mem, paths, p, f);
  }

  lemma PageHung(a: Arch, mem: Memory, root: Word, homes: Homes, pages: Paths, f: Word)
    requires PagesOk(a, mem, homes, pages) && f in pages
    ensures |pages[f]| > 0 && exists t :: Hung(a, mem, PathsOf(homes, pages), t, f)
  {
    var paths := PathsOf(homes, pages);
    var t :| PageIn(a, mem, homes, pages, t, f);
    PagesApart(a, mem, homes, pages);
    assert Hung(a, mem, paths, t, f);
  }

  lemma PagesApart(a: Arch, mem: Memory, homes: Homes, pages: Paths)
    requires PagesOk(a, mem, homes, pages)
    ensures forall f :: f in pages ==> f !in homes && |pages[f]| == a.levels
  {
  }

  lemma ChildHasPath(a: Arch, mem: Memory, root: Word, homes: Homes, pages: Paths, t: Word, i: Index)
    requires Tree(a, mem, root, homes) && PagesOk(a, mem, homes, pages)
    requires var paths := PathsOf(homes, pages); t in paths && |paths[t]| < a.levels && UserPath(paths[t] + [i])
    ensures var paths, c := PathsOf(homes, pages), Child(a, mem, t, |PathsOf(homes, pages)[t]|, i);
      c.Some? ==> c.value in paths && paths[c.value] == paths[t] + [i]
  {
    PagesApart(a, mem, homes, pages);
    PathLength(a, mem, root, homes, t);
  }

  lemma PathsInjective(a: Arch, mem: Memory, root: Word, homes: Homes, pages: Paths, f: Word, g: Word)
    requires Tree(a, mem, root, homes) && PagesOk(a, mem, homes, pages)
    requires var paths := PathsOf(homes, pages); f in paths && g in paths && paths[f] == paths[g]
    ensures f == g
  {
    hide PagesOk, Linked, Homed;
    PagesApart(a, mem, homes, pages);
    if f in pages && g in pages {
      PagesInjective(a, mem, root, homes, pages, f, g);
    } else if f in homes && g in homes {
      PathLength(a, mem, root, homes, f);
      PathLength(a, mem, root, homes, g);
      SamePlaceSame(a, mem, root, homes, f, g);
    } else {
      var t := if f in homes then f else g;
      PathLength(a, mem, root, homes, t);
      LevelBelow(a, mem, root, homes, t);
    }
  }

  lemma SamePlaceSame(a: Arch, mem: Memory, root: Word, homes: Homes, f: Word, g: Word)
    requires Tree(a, mem, root, homes) && f in homes && g in homes && homes[f].path == homes[g].path && homes[f].level == homes[g].level
    ensures f == g
  {
    assert homes[f] == homes[g];
  }

  lemma LevelBelow(a: Arch, mem: Memory, root: Word, homes: Homes, t: Word)
    requires Tree(a, mem, root, homes) && t in homes
    ensures homes[t].level < a.levels
  {
  }

  /** Tables and pages together form the tree of frames. */
  lemma TreeOfFrames(a: Arch, mem: Memory, root: Word, homes: Homes, pages: Paths)
    requires Tree(a, mem, root, homes) && PagesOk(a, mem, homes, pages)
    ensures FrameTree(a, mem, PathsOf(homes, pages))
  {
    hide Tree, PagesOk, Hung, Child;
    var paths := PathsOf(homes, pages);
    PagesApart(a, mem, homes, pages);
    forall t, i | t in paths && |paths[t]| < a.levels && UserPath(paths[t] + [i])
      ensures var c := Child(a, mem, t, |paths[t]|, i); c.Some? ==> c.value in paths && paths[c.value] == paths[t] + [i]
    {
      ChildHasPath(a, mem, root, homes, pages, t, i);
    }
    forall f | f in paths && UserPath(paths[f])
      ensures |paths[f]| <= a.levels && exists t :: Hung(a, mem, paths, t, f)
    {
      if f in pages {
        PageHung(a, mem, root, homes, pages, f);
      } else {
        PathLength(a, mem, root, homes, f);
        LevelBelow(a, mem, root, homes, f);
        RootPath(a, mem, root, homes);
        TableHung(a, mem, root, homes, pages, f);
      }
    }
    forall f, g | f in paths && g in paths && paths[f] == paths[g]
      ensures f == g
    {
      PathsInjective(a, mem, root, homes, pages, f, g);
    }
  }

  lemma RootPath(a: Arch, mem: Memory, root: Word, homes: Homes)
    requires Tree(a, mem, root, homes)
    ensures root in homes && homes[root] == Place(0, [])
  {
  }

  /** Tearing down the user half collects exactly its tables and pages, each once. */
  lemma TeardownCollects(a: Arch, mem: Memory, root: Word, homes: Homes, pages: Paths)
    requires a.levels > 0 && Tree(a, mem, root, homes) && PagesOk(a, mem, homes, pages)
    ensures NoRepeat(CollectTo(a, mem, root, 0, 256))
    ensures forall f :: f in CollectTo(a, mem, root, 0, 256) <==> (f in homes && UserPath(homes[f].path)) || f in pages
  {
    hide Tree, FrameTree, CollectTo;
    var paths := PathsOf(homes, pages);
    TreeOfFrames(a, mem, root, homes, pages);
    RootPath(a, mem, root, homes);
    PagesApart(a, mem, homes, pages);
    ToCollects(a, mem, paths, root, 0, 256);
    forall f
      ensures BelowSome(paths, f, [], 256) <==> (f in homes && UserPath(homes[f].path)) || f in pages
    {
    }
  }

  // ---- Swap entries named by leaf slots ----

  /** The non-present words in leaf slots below slot `i`, in walk order. */
  ghost function NamedSlot(a: Arch, mem: Memory, t: Word, l: nat, i: Index): seq<Word>
    decreases a.levels - l, 1, 0
  {
    var e := Get(mem, t, i);
    if l >= a.levels then []
    else if l == a.levels - 1 then (if !a.present(e) && e != ZERO then [e] else [])
    else if Child(a, mem, t, l, i).None? then []
    else NamedTo(a, mem, a.addr(e), l + 1, 512)
  }

  ghost function NamedTo(a: Arch, mem: Memory, t: Word, l: nat, k: nat): seq<Word>
    requires k <= 512
    decreases a.levels - l, 2, k
  {
    if k == 0 then [] else NamedTo(a, mem, t, l, k - 1) + NamedSlot(a, mem, t, l, (k - 1) as Index)
  }

  lemma {:induction false} NamedIn(a: Arch, mem: Memory, t: Word, l: nat, k: nat, i: Index, e: Word)
    requires k <= 512 && i as int < k && e in NamedSlot(a, mem, t, l, i)
    ensures e in NamedTo(a, mem, t, l, k)
    decreases k
  {
    if i as int < k - 1 {
      NamedIn(a, mem, t, l, k - 1, i, e);
    }
  }

  /** A swap entry in a user leaf slot is named by the walk from every table above it. */
  lemma {:induction false} NamedBelow(a: Arch, mem: Memory, paths: Paths, u: Word, l: nat, k: nat, t: Word, i: Index)
    requires FrameTree(a, mem, paths) && u in paths && |paths[u]| == l && t in paths && |paths[t]| + 1 == a.levels
    requires l <= |paths[t]| && paths[t][..l] == paths[u] && k <= 512
    requires var path := paths[t] + [i]; UserPath(path) && path[l] as int < k
    requires !a.present(Get(mem, t, i)) && Get(mem, t, i) != ZERO
    ensures Get(mem, t, i) in NamedTo(a, mem, u, l, k)
    decreases a.levels - l
  {
    hide FrameTree, NamedTo;
    var e := Get(mem, t, i);
    if l == |paths[t]| {
      assert paths[t][..l] == paths[t];
      SameFrame(a, mem, paths, t, u);
      assert e in NamedSlot(a, mem, u, l, i);
      NamedIn(a, mem, u, l, k, i, e);
    } else {
      var j := paths[t][l];
      assert (paths[t] + [i])[0] == paths[t][0] && (paths[t] + [i])[l] == j;
      var c := Ancestor(a, mem, paths, t, l + 1);
      assert paths[c] == paths[u] + [j];
      ChildAt(a, mem, paths, u, j, c);
      NamedBelow(a, mem, paths, c, l + 1, 512, t, i);
      NamedIn(a, mem, u, l, k, j, e);
    }
  }

  /** Tearing down the user half releases every swap entry it names. */
  lemma TeardownNames(a: Arch, mem: Memory, root: Word, homes: Homes, pages: Paths, t: Word, i: Index)
    requires Tree(a, mem, root, homes) && PagesOk(a, mem, homes, pages) && t in homes && homes[t].level + 1 == a.levels
    requires UserPath(homes[t].path + [i]) && !a.present(Get(mem, t, i)) && Get(mem, t, i) != ZERO
    ensures Get(mem, t, i) in NamedTo(a, mem, root, 0, 256)
  {
    hide Tree, FrameTree, NamedTo;
    var paths := PathsOf(homes, pages);
    TreeOfFrames(a, mem, root, homes, pages);
    RootPath(a, mem, root, homes);
    PathLength(a, mem, root, homes, t);
    PagesApart(a, mem, homes, pages);
    NamedBelow(a, mem, paths, root, 0, 256, t, i);
  }

  /** An entry that the walk below slot `k` of a table names is in a user leaf slot. */
  lemma {:induction false} NamedInSome(a: Arch, mem: Memory, paths: Paths, u: Word, l: nat, k: nat, e: Word) returns (t: Word, i: Index)
    requires FrameTree(a, mem, paths) && u in paths && |paths[u]| == l < a.levels && k <= 512 && (l == 0 ==> k <= 256) && (l > 0 ==> UserPath(paths[u]))
    requires e in NamedTo(a, mem, u, l, k)
    ensures t in paths && |paths[t]| + 1 == a.levels && UserPath(paths[t] + [i])
    ensures e == Get(mem, t, i) && !a.present(e) && e != ZERO
    decreases a.levels - l, k
  {
    hide FrameTree;
    var j := (k - 1) as Index;
    assert (paths[u] + [j])[0] == if l == 0 then j else paths[u][0];
    if e in NamedTo(a, mem, u, l, k - 1) {
      t, i := NamedInSome(a, mem, paths, u, l, k - 1, e);
    } else if l == a.levels - 1 {
      t, i := u, j;
    } else {
      var c := Child(a, mem, u, l, j).value;
      assert c in paths && paths[c] == paths[u] + [j] by { ChildKnown(a, mem, paths, u, j); }
      t, i := NamedInSome(a, mem, paths, c, l + 1, 512, e);
    }
  }

  lemma ChildKnown(a: Arch, mem: Memory, paths: Paths, t: Word, i: Index)
    requires FrameTree(a, mem, paths) && t in paths && |paths[t]| < a.levels && UserPath(paths[t] + [i]) && Child(a, mem, t, |paths[t]|, i).Some?
    ensures var c := Child(a, mem, t, |paths[t]|, i).value; c in paths && paths[c] == paths[t] + [i]
  {
  }

  lemma NamedIsThere(a: Arch, mem: Memory, root: Word, homes: Homes, pages: Paths, e: Word) returns (t: Word, i: Index)
    requires a.levels > 1 && Tree(a, mem, root, homes) && PagesOk(a, mem, homes, pages) && e in NamedTo(a, mem, root, 0, 256)
    ensures t in homes && homes[t].level + 1 == a.levels && UserPath(homes[t].path + [i])
    ensures e == Get(mem, t, i) && !a.present(e) && e != ZERO
  {
    hide FrameTree, NamedTo;
    var paths := PathsOf(homes, pages);
    TreeOfFrames(a, mem, root, homes, pages);
    RootPath(a, mem, root, homes);
    PagesApart(a, mem, homes, pages);
    t, i := NamedInSome(a, mem, paths, root, 0, 256, e);
    assert t in homes;
    PathLength(a, mem, root, homes, t);
  }

  // ---- Walk order ----

  lemma {:induction false} CollectPrefix(a: Arch, mem: Memory, t: Word, l: nat, j: nat, k: nat)
    requires j <= k <= 512
    ensures CollectTo(a, mem, t, l, j) <= CollectTo(a, mem, t, l, k)
    decreases k - j
  {
    if j < k {
      CollectPrefix(a, mem, t, l, j, k - 1);
    }
  }

  lemma NoRepeatParts(s: seq<Word>, x: seq<Word>, y: seq<Word>)
    requires NoRepeat(s) && x + y <= s
    ensures NoRepeat(x) && NoRepeat(y) && forall f :: f in y ==> f !in x && f in s
  {
    forall i, j | 0 <= i < j < |x|
      ensures x[i] != x[j]
    {
      assert s[i] == x[i] && s[j] == x[j];
    }
    forall i, j | 0 <= i < j < |y|
      ensures y[i] != y[j]
    {
      assert s[|x| + i] == y[i] && s[|x| + j] == y[j];
    }
    forall f | f in y
      ensures f !in x && f in s
    {
      var j :| 0 <= j < |y| && y[j] == f;
      assert s[|x| + j] == f;
      assert forall i :: 0 <= i < |x| ==> s[i] == x[i];
    }
  }
}
