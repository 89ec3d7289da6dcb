/** Well-formed, pairwise disjoint chains, and what allocation, extension and release do to them. */
module FatLive {
  import opened FatChain
  import opened FatGeometry
  import opened FatImage
  import opened FatVolume
  import opened FatDirectory

  /** The live chains, keyed by their first cluster. */
  type Chains = map<nat, seq<nat>>

  ghost predicate Disjoint(a: seq<nat>, b: seq<nat>) {
    forall i, j :: 0 <= i < |a| && 0 <= j < |b| ==> a[i] != b[j]
  }

  ghost predicate Forest(fat: Fat, chains: Chains) {
    && (forall h :: h in chains ==> IsChain(fat, h, chains[h]))
    && (forall h, k :: h in chains && k in chains && h != k ==> Disjoint(chains[h], chains[k]))
  }

  /** Cluster `c` is in use and on no chain. */
  ghost predicate Stray(fat: Fat, chains: Chains, c: nat) {
    ValidCluster(fat, c) && fat[c] != FREE && forall h :: h in chains ==> c !in chains[h]
  }

  ghost predicate SameStray(fat: Fat, chains: Chains, fat': Fat, chains': Chains) {
    forall c :: Stray(fat', chains', c) <==> Stray(fat, chains, c)
  }

  /** A link that no cluster of the chain owns can change freely. */
  lemma OtherLink(fat: Fat, s: nat, chain: seq<nat>, c: nat, v: nat)
    requires IsChain(fat, s, chain) && ValidCluster(fat, c)
    requires forall i :: 0 <= i < |chain| ==> chain[i] != c
    ensures IsChain(fat[c := v], s, chain)
  {
  }

  /** A free cluster is on no chain. */
  lemma FreeIsOutside(fat: Fat, s: nat, chain: seq<nat>, c: nat)
    requires FatOk(fat) && IsChain(fat, s, chain) && ValidCluster(fat, c) && fat[c] == FREE
    ensures forall i :: 0 <= i < |chain| ==> chain[i] != c
  {
    forall i | 0 <= i < |chain|
      ensures chain[i] != c
    {
      assert i < |chain| - 1 ==> ValidCluster(fat, chain[i + 1]);
    }
  }

  /** Allocation: a free cluster becomes a chain of its own. */
  lemma AllocKeepsForest(fat: Fat, chains: Chains, c: nat)
    requires FatOk(fat) && Forest(fat, chains) && ValidCluster(fat, c) && fat[c] == FREE
    ensures Forest(fat[c := EOC_MAX], chains[c := [c]])
  {
    forall h | h in chains
      ensures h != c && IsChain(fat[c := EOC_MAX], h, chains[h]) && Disjoint(chains[h], [c])
    {
      FreeIsOutside(fat, h, chains[h], c);
      OtherLink(fat, h, chains[h], c, EOC_MAX);
      assert chains[h][0] == h;
    }
  }

  lemma AllocStray(fat: Fat, chains: Chains, c: nat)
    requires FatOk(fat) && Forest(fat, chains) && ValidCluster(fat, c) && fat[c] == FREE
    ensures SameStray(fat, chains, fat[c := EOC_MAX], chains[c := [c]])
  {
    hide IsChain;
    var fat', chains' := fat[c := EOC_MAX], chains[c := [c]];
    assert c !in chains by {
      if c in chains {
        ParentSurvives(fat, chains, c, c);
        assert false;
      }
    }
    forall b
      ensures Stray(fat', chains', b) <==> Stray(fat, chains, b)
    {
      if b == c {
        assert c in chains'[c];
      } else {
        assert forall h :: h in chains ==> chains'[h] == chains[h];
        assert b !in chains'[c];
      }
    }
  }

  /** Extension: a one-cluster chain is hung on the end of another. */
  lemma ExtendKeepsForest(fat: Fat, chains: Chains, h: nat, c: nat)
    requires FatOk(fat) && Forest(fat, chains) && h in chains && c in chains && h != c && chains[c] == [c]
    ensures Forest(fat[chains[h][|chains[h]| - 1] := c], (chains - {c})[h := chains[h] + [c]])
  {
    var chain := chains[h];
    var tail := chain[|chain| - 1];
    var fat' := fat[tail := c];
    ChainDistinct(fat, h, chain);
    assert Disjoint(chain, chains[c]);
    assert IsChain(fat', h, chain + [c]) by {
      assert ValidCluster(fat, chains[c][0]);
      assert chain[|chain| - 1] != chains[c][0];
    }
    forall k | k in chains && k != h && k != c
      ensures IsChain(fat', k, chains[k]) && Disjoint(chains[k], chain + [c]) && Disjoint(chain + [c], chains[k])
    {
      assert Disjoint(chain, chains[k]) && Disjoint(chains[c], chains[k]);
      OtherLink(fat, k, chains[k], tail, c);
      forall i, j | 0 <= i < |chains[k]| && 0 <= j < |chain + [c]|
        ensures chains[k][i] != (chain + [c])[j]
      {
        assert chains[c][0] != chains[k][i];
      }
    }
  }

  /** The links of `fat` with every cluster of `chain` free. */
  ghost predicate Cleared(fat: Fat, fat': Fat, chain: seq<nat>) {
    && |fat'| == |fat|
    && forall c :: 0 <= c < |fat| ==> fat'[c] == if c in chain then FREE else fat[c]
  }

  lemma ReleaseStray(fat: Fat, fat': Fat, chains: Chains, h: nat)
    requires Forest(fat, chains) && h in chains && Cleared(fat, fat', chains[h])
    ensures SameStray(fat, chains, fat', chains - {h})
  {
    hide IsChain;
    forall b
      ensures Stray(fat', chains - {h}, b) <==> Stray(fat, chains, b)
    {
      if ValidCluster(fat, b) && b !in chains[h] {
        assert forall k :: k in chains && k != h ==> (chains - {h})[k] == chains[k];
      }
    }
  }

  lemma ReleaseKeepsForest(fat: Fat, fat': Fat, chains: Chains, h: nat)
    requires FatOk(fat) && Forest(fat, chains) && h in chains && Cleared(fat, fat', chains[h])
    ensures Forest(fat', chains - {h})
  {
    forall k | k in chains && k != h
      ensures IsChain(fat', k, chains[k])
    {
      assert Disjoint(chains[h], chains[k]);
    }
  }

  lemma FreedClears(g: Layout, raw: seq<nat>, after: seq<nat>, chain: seq<nat>)
    requires |raw| == g.fatSectors * 128 && FreedUpTo(raw, after, chain, |chain|)
    ensures |after| == |raw| && Cleared(FatOf(g, raw), FatOf(g, after), chain)
  {
    assert chain[..|chain|] == chain;
    forall c | 0 <= c < g.clusterCount + 2
      ensures FatOf(g, after)[c] == if c in chain then FREE else FatOf(g, raw)[c]
    {
      FreedEntries(raw, chain, c);
    }
  }

  /** A directory grown by a free cluster. */
  lemma GrownStep(g: Layout, raw: seq<nat>, after: seq<nat>, chains: Chains, parent: nat, tail: nat, x: nat)
    requires |raw| == g.fatSectors * 128 && Forest(FatOf(g, raw), chains) && parent in chains
    requires ClusterIn(g, tail) && ClusterIn(g, x) && AddedTo(g, raw, after, parent, tail, x)
    ensures |after| == g.fatSectors * 128 && Forest(FatOf(g, after), chains[parent := chains[parent] + [x]])
  {
    hide FatOf, Forest, IsChain, Stored, LastOf;
    var fat := FatOf(g, raw);
    FatOfOk(g, raw);
    StoredFat(g, raw, x, EOC_MAX);
    AllocKeepsForest(fat, chains, x);
    ParentSurvives(fat, chains, parent, x);
    var fat2, chains2, raw2 := fat[x := EOC_MAX], chains[x := [x]], Stored(raw, x, EOC_MAX);
    FatOfOk(g, raw2);
    TailIs(fat, parent, chains[parent], tail);
    ExtendKeepsForest(fat2, chains2, parent, x);
    StoredFat(g, raw2, tail, x);
    assert (chains2 - {x})[parent := chains2[parent] + [x]] == chains[parent := chains[parent] + [x]];
  }

  lemma GrownStray(g: Layout, raw: seq<nat>, after: seq<nat>, chains: Chains, parent: nat, tail: nat, x: nat)
    requires |raw| == g.fatSectors * 128 && Forest(FatOf(g, raw), chains) && parent in chains
    requires ClusterIn(g, tail) && ClusterIn(g, x) && AddedTo(g, raw, after, parent, tail, x)
    ensures |after| == g.fatSectors * 128 && SameStray(FatOf(g, raw), chains, FatOf(g, after), chains[parent := chains[parent] + [x]])
  {
    hide FatOf, IsChain, Stored, LastOf;
    var fat, chain := FatOf(g, raw), chains[parent];
    FatOfOk(g, raw);
    StoredFat(g, raw, x, EOC_MAX);
    StoredFat(g, Stored(raw, x, EOC_MAX), tail, x);
    TailIs(fat, parent, chain, tail);
    var fat', chains' := FatOf(g, after), chains[parent := chain + [x]];
    var taken := fat[x := EOC_MAX];
    assert fat' == taken[tail := x];
    forall b
      ensures Stray(fat', chains', b) <==> Stray(fat, chains, b)
    {
      assert forall h :: h in chains && h != parent ==> chains'[h] == chains[h];
      assert b in chains'[parent] <==> b in chain || b == x;
      assert tail in chain;
    }
  }

  /** A free cluster is not the head of a live chain. */
  lemma ParentSurvives(fat: Fat, chains: Chains, parent: nat, c: nat)
    requires FatOk(fat) && Forest(fat, chains) && parent in chains && ValidCluster(fat, c) && fat[c] == FREE
    ensures parent != c && IsChain(fat, parent, chains[parent]) && c !in chains
  {
    FreeIsOutside(fat, parent, chains[parent], c);
    assert chains[parent][0] == parent;
    if c in chains {
      FreeIsOutside(fat, c, chains[c], c);
      assert false;
    }
  }

  lemma TailIs(fat: Fat, parent: nat, chain: seq<nat>, tail: nat)
    requires FatOk(fat) && IsChain(fat, parent, chain) && LastOf(fat, parent, tail)
    ensures |chain| > 0 && chain[|chain| - 1] == tail
  {
    var other :| IsChain(fat, parent, other) && other[|other| - 1] == tail;
    ChainUnique(fat, parent, chain, other);
  }
}
