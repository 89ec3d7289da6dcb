/** The FAT32 link graph and the constant-space chain walker of the driver.

    A FAT is a sequence of 28-bit values indexed by cluster number; clusters 0 and 1
    are reserved, so a volume with n data clusters has n + 2 entries.  `Next` is one
    call of the walker (Brent's cycle detection); the lemmas compare it with the
    plain definition of a chain as a list of linked clusters. */
module FatChain {

  const FREE := 0
  const RESERVED_MIN := 0x0FFF_FFF0
  const EOC_MIN := 0x0FFF_FFF8
  const EOC_MAX := 0x0FFF_FFFF
  const MASK28 := 0x1000_0000
  const U32 := 0x1_0000_0000

  /** The values of a 28-bit link, by the Microsoft FAT specification: 0 for a free cluster, eight end marks. */
  lemma LinkValues(v: nat)
    requires v < 0x1000_0000
    ensures v >= EOC_MIN <==> v in {0x0FFF_FFF8, 0x0FFF_FFF9, 0x0FFF_FFFA, 0x0FFF_FFFB, 0x0FFF_FFFC, 0x0FFF_FFFD, 0x0FFF_FFFE, 0x0FFF_FFFF}
    ensures (v == FREE <==> v == 0) && (v == EOC_MAX <==> v == 0x0FFF_FFFF)
  {
  }

  type Fat = seq<nat>

  /** What `mount` guarantees about the size of a FAT. */
  ghost predicate FatOk(fat: Fat) {
    && 3 <= |fat| <= RESERVED_MIN
    && forall c :: 0 <= c < |fat| ==> fat[c] < MASK28
  }

  predicate ValidCluster(fat: Fat, c: nat) {
    2 <= c < |fat|
  }

  function ClusterCount(fat: Fat): nat
    requires 2 <= |fat|
  {
    |fat| - 2
  }

  // ---- The simple definition: chains as lists, walks as iterated links ----

  /** The cluster reached from `s` over `k` links; a walk stops where it leaves the volume. */
  function Walk(fat: Fat, s: nat, k: nat): nat {
    if k == 0 then s
    else
      var c := Walk(fat, s, k - 1);
      if ValidCluster(fat, c) then fat[c] else c
  }

  /** `chain` is a well-formed chain from `s`: linked valid clusters, then an end mark. */
  ghost predicate IsChain(fat: Fat, s: nat, chain: seq<nat>) {
    && |chain| > 0
    && chain[0] == s
    && (forall i :: 0 <= i < |chain| ==> ValidCluster(fat, chain[i]))
    && (forall i :: 0 <= i < |chain| - 1 ==> fat[chain[i]] == chain[i + 1])
    && fat[chain[|chain| - 1]] >= EOC_MIN
  }

  /** From `s`, `mu` links lead onto a cycle of `lambda` clusters. */
  ghost predicate IsRho(fat: Fat, s: nat, mu: nat, lambda: nat) {
    && lambda > 0
    && (forall i :: 0 <= i < mu + lambda ==> ValidCluster(fat, Walk(fat, s, i)))
    && (forall i, j :: 0 <= i < j < mu + lambda ==> Walk(fat, s, i) != Walk(fat, s, j))
    && Walk(fat, s, mu + lambda) == Walk(fat, s, mu)
  }

  // ---- The walker ----

  datatype Walker = Walker(current: nat, checkpoint: nat, power: nat, distance: nat,
                           visited: nat, started: bool, finished: bool)

  datatype Outcome = Yield(cluster: nat) | End | Bad

  function Start(s: nat): Walker {
    Walker(s, s, 1, 0, 0, false, false)
  }

  /** The bound check and the yield that close every successful call. */
  function Visit(fat: Fat, w: Walker): (Walker, Outcome)
    requires FatOk(fat)
  {
    if ValidCluster(fat, w.current) && w.visited < ClusterCount(fat)
    then (w.(visited := (w.visited + 1) % 0x1_0000_0000, started := true), Yield(w.current))
    else (w, Bad)
  }

  /** One call of `ClusterChain::next`, with its 32-bit counters. */
  function Next(fat: Fat, w: Walker): (Walker, Outcome)
    requires FatOk(fat)
  {
    if w.finished then (w, End)
    else if !w.started then Visit(fat, w)
    else if !ValidCluster(fat, w.current) then (w, Bad)
    else
      var next := fat[w.current];
      if next >= EOC_MIN then (w.(finished := true), End)
      else if !ValidCluster(fat, next) then (w, Bad)
      else
        var moved := w.(distance := (w.distance + 1) % 0x1_0000_0000);
        if next == w.checkpoint then (moved, Bad)
        else if moved.distance == w.power then
          Visit(fat, moved.(checkpoint := next, power := (w.power * 2) % 0x1_0000_0000, distance := 0, current := next))
        else
          Visit(fat, moved.(current := next))
  }

  /** The walker after `t` calls. */
  function After(fat: Fat, s: nat, t: nat): Walker
    requires FatOk(fat)
  {
    if t == 0 then Start(s) else Next(fat, After(fat, s, t - 1)).0
  }

  /** The result of call number `t`, counting from zero. */
  function Call(fat: Fat, s: nat, t: nat): Outcome
    requires FatOk(fat)
  {
    Next(fat, After(fat, s, t)).1
  }

  /** The first `t` calls all yielded. */
  ghost predicate Yields(fat: Fat, s: nat, t: nat)
    requires FatOk(fat)
  {
    forall i :: 0 <= i < t ==> Call(fat, s, i).Yield?
  }

  // ---- Invariant ----

  function Pow2(k: nat): (p: nat)
    ensures p > k
  {
    if k == 0 then 1 else 2 * Pow2(k - 1)
  }

  lemma {:induction false} Pow2Doubles(i: nat, k: nat)
    requires i < k
    ensures 2 * Pow2(i) <= Pow2(k)
  {
    if i < k - 1 {
      Pow2Doubles(i, k - 1);
    }
  }

  /** After `t` yields the walker stands on walk position t - 1, its checkpoint on position
      2^k - 1, and the distance between the two is what `distance` counts. */
  ghost predicate At(fat: Fat, s: nat, w: Walker, t: nat, k: nat) {
    && w.visited == t
    && w.started == (t > 0)
    && !w.finished
    && t <= |fat| - 2
    && w.power == Pow2(k)
    && w.distance < w.power
    && w.current == Walk(fat, s, if t == 0 then 0 else t - 1)
    && w.checkpoint == Walk(fat, s, Pow2(k) - 1)
    && (if t == 0 then 0 else t - 1) == Pow2(k) - 1 + w.distance
    && (forall i :: 0 <= i < t ==> ValidCluster(fat, Walk(fat, s, i)))
  }

  /** The checkpoint comparison of the next call succeeds. */
  predicate CheckpointHit(fat: Fat, w: Walker) {
    w.started && !w.finished && ValidCluster(fat, w.current)
    && ValidCluster(fat, fat[w.current]) && fat[w.current] == w.checkpoint
  }

  /** What one call does from a state reached by `t` yields, case by case. */
  lemma NextFrom(fat: Fat, s: nat, w: Walker, t: nat, k: nat)
    requires FatOk(fat) && At(fat, s, w, t, k)
    ensures var (w', o) := Next(fat, w);
            && (o.Yield? <==> (&& ValidCluster(fat, Walk(fat, s, t))
                               && t < ClusterCount(fat)
                               && (t > 0 ==> Walk(fat, s, t) != w.checkpoint)))
            && (o.End? <==> t > 0 && Walk(fat, s, t) >= EOC_MIN)
            && (o.Yield? ==> && o.cluster == Walk(fat, s, t)
                             && At(fat, s, w', t + 1, if t > 0 && w.distance + 1 == w.power then k + 1 else k))
            && (o.End? ==> w' == w.(finished := true))
  {
    assert t > 0 ==> Walk(fat, s, t) == fat[w.current];
    assert Pow2(k + 1) == 2 * Pow2(k);
    hide Pow2, Walk;
    assert w.power <= t + 1;
    assert (w.distance + 1) % 0x1_0000_0000 == w.distance + 1;
    assert (w.power * 2) % 0x1_0000_0000 == w.power * 2;
    assert (w.visited + 1) % 0x1_0000_0000 == w.visited + 1;
  }

  lemma {:induction false} Reaches(fat: Fat, s: nat, t: nat) returns (k: nat)
    requires FatOk(fat) && Yields(fat, s, t)
    ensures At(fat, s, After(fat, s, t), t, k)
  {
    hide Next;
    k := 0;
    if t > 0 {
      k := Reaches(fat, s, t - 1);
      assert Call(fat, s, t - 1).Yield?;
      NextFrom(fat, s, After(fat, s, t - 1), t - 1, k);
      var w := After(fat, s, t - 1);
      k := if t - 1 > 0 && w.distance + 1 == w.power then k + 1 else k;
    }
  }

  /** Every yield is the next cluster of the plain walk, no run yields more clusters than
      the volume has, and no 32-bit counter ever wraps. */
  lemma YieldsAreTheWalk(fat: Fat, s: nat, t: nat)
    requires FatOk(fat) && Yields(fat, s, t)
    ensures t <= ClusterCount(fat)
    ensures forall i :: 0 <= i < t ==> Call(fat, s, i) == Yield(Walk(fat, s, i)) && ValidCluster(fat, Walk(fat, s, i))
    ensures var w := After(fat, s, t);
            && w.visited == t
            && w.distance < w.power <= (if t == 0 then 1 else t) && w.power * 2 < U32
  {
    hide Next;
    var k := Reaches(fat, s, t);
    forall i | 0 <= i < t
      ensures Call(fat, s, i) == Yield(Walk(fat, s, i)) && ValidCluster(fat, Walk(fat, s, i))
    {
      assert Call(fat, s, i).Yield?;
      var ki := Reaches(fat, s, i);
      NextFrom(fat, s, After(fat, s, i), i, ki);
    }
  }

  // ---- Well-formed chains ----

  lemma ChainIsWalk(fat: Fat, s: nat, chain: seq<nat>, i: nat)
    requires IsChain(fat, s, chain) && i < |chain|
    ensures Walk(fat, s, i) == chain[i]
  {
    if i > 0 {
      ChainIsWalk(fat, s, chain, i - 1);
    }
  }

  lemma ChainUnique(fat: Fat, s: nat, one: seq<nat>, two: seq<nat>)
    requires FatOk(fat) && IsChain(fat, s, one) && IsChain(fat, s, two)
    ensures one == two
  {
    WalkerFollowsChain(fat, s, one, |one|);
    WalkerFollowsChain(fat, s, two, |one|);
    WalkerFollowsChain(fat, s, one, |two|);
    WalkerFollowsChain(fat, s, two, |two|);
    forall i | 0 <= i < |one|
      ensures one[i] == two[i]
    {
      ChainIsWalk(fat, s, one, i);
      ChainIsWalk(fat, s, two, i);
    }
  }

  /** Two equal positions of a chain have equal successors, up to the end of the chain. */
  lemma {:induction false} ChainShift(fat: Fat, s: nat, chain: seq<nat>, i: nat, j: nat, d: nat)
    requires IsChain(fat, s, chain) && i < j && j + d < |chain| && chain[i] == chain[j]
    ensures chain[i + d] == chain[j + d]
  {
    if d > 0 {
      ChainShift(fat, s, chain, i, j, d - 1);
    }
  }

  /** A chain that ends never repeats a cluster. */
  lemma ChainDistinct(fat: Fat, s: nat, chain: seq<nat>)
    requires FatOk(fat) && IsChain(fat, s, chain)
    ensures forall i, j :: 0 <= i < j < |chain| ==> chain[i] != chain[j]
  {
    forall i, j | 0 <= i < j < |chain|
      ensures chain[i] != chain[j]
    {
      var e := i + (|chain| - 1 - j);
      assert fat[chain[e]] == chain[e + 1] && ValidCluster(fat, chain[e + 1]);
      if chain[i] == chain[j] {
        // the last cluster would then have a successor inside the chain
        ChainShift(fat, s, chain, i, j, |chain| - 1 - j);
      }
    }
  }

  /** Distinct valid clusters are at most as many as the volume has. */
  lemma {:induction false} Pigeonhole(xs: seq<nat>, lo: nat, hi: nat)
    requires lo <= hi
    requires forall i :: 0 <= i < |xs| ==> lo <= xs[i] < hi
    requires forall i, j :: 0 <= i < j < |xs| ==> xs[i] != xs[j]
    ensures |xs| <= hi - lo
  {
    if |xs| > 0 {
      assert lo <= xs[0] < hi;
      if k :| 0 <= k < |xs| && xs[k] == hi - 1 {
        Pigeonhole(xs[..k] + xs[k + 1..], lo, hi - 1);
      } else {
        Pigeonhole(xs, lo, hi - 1);
      }
    }
  }

  lemma {:induction false} ChainYields(fat: Fat, s: nat, chain: seq<nat>, t: nat)
    requires FatOk(fat) && IsChain(fat, s, chain) && t <= |chain|
    ensures Yields(fat, s, t)
  {
    hide Next, Pow2, Walk;
    if t > 0 {
      ChainYields(fat, s, chain, t - 1);
      var k := Reaches(fat, s, t - 1);
      var w := After(fat, s, t - 1);
      NextFrom(fat, s, w, t - 1, k);
      ChainIsWalk(fat, s, chain, t - 1);
      ChainDistinct(fat, s, chain);
      Pigeonhole(chain, 2, |fat|);
      if t > 1 {
        ChainIsWalk(fat, s, chain, Pow2(k) - 1);
      }
      assert Call(fat, s, t - 1).Yield?;
    }
  }

  /** Completeness: on a chain that ends, the walker yields exactly its clusters in order
      and then reports the end, for ever. */
  lemma {:induction false} WalkerFollowsChain(fat: Fat, s: nat, chain: seq<nat>, t: nat)
    requires FatOk(fat) && IsChain(fat, s, chain)
    ensures Call(fat, s, t) == if t < |chain| then Yield(chain[t]) else End
    ensures After(fat, s, t).finished <==> t > |chain|
  {
    hide IsChain, Walk, Pow2;
    if t <= |chain| {
      ChainCall(fat, s, chain, t);
    } else {
      WalkerFollowsChain(fat, s, chain, t - 1);
    }
  }

  lemma ChainCall(fat: Fat, s: nat, chain: seq<nat>, t: nat)
    requires FatOk(fat) && IsChain(fat, s, chain) && t <= |chain|
    ensures Call(fat, s, t) == if t < |chain| then Yield(chain[t]) else End
    ensures !After(fat, s, t).finished
  {
    hide Pow2;
    ChainYields(fat, s, chain, |chain|);
    assert Yields(fat, s, t);
    var k := Reaches(fat, s, t);
    NextFrom(fat, s, After(fat, s, t), t, k);
    if t < |chain| {
      assert Call(fat, s, t).Yield?;
      ChainIsWalk(fat, s, chain, t);
    } else {
      ChainIsWalk(fat, s, chain, t - 1);
    }
  }

  function Prefix(fat: Fat, s: nat, t: nat): (p: seq<nat>)
    ensures |p| == t
    ensures forall i :: 0 <= i < t ==> p[i] == Walk(fat, s, i)
  {
    seq(t, i requires 0 <= i => Walk(fat, s, i))
  }

  /** Soundness: an end reported after `t` yields means the clusters yielded are the whole
      chain; and on every graph the walker stops yielding after at most `ClusterCount` calls. */
  lemma EndMeansChain(fat: Fat, s: nat, t: nat)
    requires FatOk(fat) && Yields(fat, s, t)
    ensures Call(fat, s, t).End? <==> IsChain(fat, s, Prefix(fat, s, t))
    ensures t == ClusterCount(fat) ==> !Call(fat, s, t).Yield?
  {
    hide Next;
    var k := Reaches(fat, s, t);
    NextFrom(fat, s, After(fat, s, t), t, k);
    var p := Prefix(fat, s, t);
    if t > 0 {
      assert Walk(fat, s, t) == fat[p[t - 1]];
      forall i | 0 <= i < t - 1
        ensures fat[p[i]] == p[i + 1]
      {
        assert Walk(fat, s, i + 1) == fat[Walk(fat, s, i)];
      }
    }
  }

  /** The checkpoint test accuses only real cycles: when it fires, two different walk
      positions hold the same cluster. */
  lemma CheckpointIsCycle(fat: Fat, s: nat, t: nat)
    requires FatOk(fat) && Yields(fat, s, t) && CheckpointHit(fat, After(fat, s, t))
    ensures exists i, j :: 0 <= i < j == t && Walk(fat, s, i) == Walk(fat, s, j) && ValidCluster(fat, Walk(fat, s, i))
    ensures Call(fat, s, t).Bad?
    ensures forall chain :: !IsChain(fat, s, chain)
  {
    var k := Reaches(fat, s, t);
    var w := After(fat, s, t);
    NextFrom(fat, s, w, t, k);
    var i := Pow2(k) - 1;
    assert Walk(fat, s, i) == Walk(fat, s, t) && i < t;
    forall chain ensures !IsChain(fat, s, chain) {
      if IsChain(fat, s, chain) {
        WalkerFollowsChain(fat, s, chain, t);
      }
    }
  }

  lemma Begin(fat: Fat, s: nat)
    requires FatOk(fat)
    ensures Yields(fat, s, 0) && After(fat, s, 0) == Start(s)
  {
  }

  /** All a caller that drains a walker needs to know about its next call. */
  lemma Advance(fat: Fat, s: nat, t: nat)
    requires FatOk(fat) && Yields(fat, s, t)
    ensures t <= ClusterCount(fat)
    ensures Next(fat, After(fat, s, t)) == (After(fat, s, t + 1), Call(fat, s, t))
    ensures Call(fat, s, t).Yield? ==> Yields(fat, s, t + 1) && t < ClusterCount(fat)
    ensures Call(fat, s, t).End? ==> exists chain :: IsChain(fat, s, chain)
    ensures Call(fat, s, t).Bad? ==> forall chain :: !IsChain(fat, s, chain)
    ensures After(fat, s, t).started == (t > 0)
    ensures t <= 1 ==> After(fat, s, t).current == s
    ensures t > 0 && ValidCluster(fat, s) && fat[s] >= EOC_MIN ==> t == 1 && Call(fat, s, t).End?
  {
    hide Next;
    YieldsAreTheWalk(fat, s, t);
    var k := Reaches(fat, s, t);
    NextFrom(fat, s, After(fat, s, t), t, k);
    if t > 0 && ValidCluster(fat, s) && fat[s] >= EOC_MIN {
      WalkerFollowsChain(fat, s, [s], 1);
    }
    EndMeansChain(fat, s, t);
    if Call(fat, s, t).Yield? {
      YieldsAreTheWalk(fat, s, t + 1);
    } else if Call(fat, s, t).Bad? {
      forall chain
        ensures !IsChain(fat, s, chain)
      {
        if IsChain(fat, s, chain) {
          WalkerFollowsChain(fat, s, chain, t);
        }
      }
    }
  }

  // ---- Cycles ----

  /** The position in the first lap that holds the same cluster as position `b`. */
  function FirstLap(mu: nat, lambda: nat, b: nat): (r: nat)
    requires lambda > 0
    ensures r < mu + lambda
    ensures b < mu ==> r == b
    ensures b >= mu ==> r >= mu
  {
    if b < mu + lambda then b else FirstLap(mu, lambda, b - lambda)
  }

  lemma {:induction false} Lap(fat: Fat, s: nat, mu: nat, lambda: nat, b: nat)
    requires IsRho(fat, s, mu, lambda) && b >= mu
    ensures Walk(fat, s, b + lambda) == Walk(fat, s, b)
    ensures ValidCluster(fat, Walk(fat, s, b))
    decreases b
  {
    if b > mu {
      Lap(fat, s, mu, lambda, b - 1);
      assert Walk(fat, s, b + lambda) == Walk(fat, s, b - 1 + lambda + 1);
    }
    if b >= mu + lambda {
      Lap(fat, s, mu, lambda, b - lambda);
    }
  }

  lemma {:induction false} WalkAsFirstLap(fat: Fat, s: nat, mu: nat, lambda: nat, b: nat)
    requires IsRho(fat, s, mu, lambda)
    ensures Walk(fat, s, b) == Walk(fat, s, FirstLap(mu, lambda, b))
    ensures ValidCluster(fat, Walk(fat, s, b))
  {
    if b >= mu + lambda {
      Lap(fat, s, mu, lambda, b - lambda);
      WalkAsFirstLap(fat, s, mu, lambda, b - lambda);
    }
  }

  lemma {:induction false} LapsDiffer(mu: nat, lambda: nat, a: nat, b: nat)
    requires lambda > 0 && a < b && (a < mu || b - a < lambda)
    ensures FirstLap(mu, lambda, a) != FirstLap(mu, lambda, b)
    decreases b
  {
    if a >= mu && a >= mu + lambda {
      LapsDiffer(mu, lambda, a - lambda, b - lambda);
    }
  }

  /** On a tail of `mu` and a cycle of `lambda` clusters, positions a < b meet only if `a`
      is on the cycle and they are at least one lap apart; exactly one lap apart they do. */
  lemma RhoEquality(fat: Fat, s: nat, mu: nat, lambda: nat, a: nat, b: nat)
    requires IsRho(fat, s, mu, lambda) && a < b
    ensures a < mu || b - a < lambda ==> Walk(fat, s, a) != Walk(fat, s, b)
    ensures a >= mu && b - a == lambda ==> Walk(fat, s, a) == Walk(fat, s, b)
    ensures ValidCluster(fat, Walk(fat, s, b))
  {
    WalkAsFirstLap(fat, s, mu, lambda, a);
    WalkAsFirstLap(fat, s, mu, lambda, b);
    if a < mu || b - a < lambda {
      LapsDiffer(mu, lambda, a, b);
    }
    if a >= mu {
      Lap(fat, s, mu, lambda, a);
    }
  }

  /** `k` is the least exponent whose checkpoint lies on the cycle and whose window spans a lap. */
  ghost predicate LeastWindow(mu: nat, lambda: nat, k: nat) {
    && Pow2(k) - 1 >= mu && Pow2(k) >= lambda
    && (forall i :: 0 <= i < k ==> Pow2(i) - 1 < mu || Pow2(i) < lambda)
  }

  function Least(a: nat, b: nat): nat {
    if a < b then a else b
  }

  /** Before link 2^k - 1 + lambda the checkpoint is on the tail or less than a lap behind. */
  lemma BeforeTheCatch(mu: nat, lambda: nat, k: nat, i: nat, t: nat)
    requires LeastWindow(mu, lambda, k)
    requires Pow2(i) <= t < 2 * Pow2(i) && t < Pow2(k) - 1 + lambda
    ensures Pow2(i) - 1 < mu || t - (Pow2(i) - 1) < lambda
  {
    if k < i {
      Pow2Doubles(k, i);
    }
  }

  lemma {:induction false} RhoYields(fat: Fat, s: nat, mu: nat, lambda: nat, k: nat, t: nat)
    requires FatOk(fat) && IsRho(fat, s, mu, lambda) && LeastWindow(mu, lambda, k)
    requires t <= Least(Pow2(k) - 1 + lambda, ClusterCount(fat))
    ensures Yields(fat, s, t)
  {
    hide Next, Pow2, Walk;
    if t > 0 {
      RhoYields(fat, s, mu, lambda, k, t - 1);
      var i := Reaches(fat, s, t - 1);
      var w := After(fat, s, t - 1);
      NextFrom(fat, s, w, t - 1, i);
      if t > 1 {
        BeforeTheCatch(mu, lambda, k, i, t - 1);
        RhoEquality(fat, s, mu, lambda, Pow2(i) - 1, t - 1);
      } else {
        WalkAsFirstLap(fat, s, mu, lambda, 0);
      }
      assert Call(fat, s, t - 1).Yield?;
    }
  }

  lemma SameWindow(i: nat, k: nat, link: nat)
    requires Pow2(i) <= link < 2 * Pow2(i)
    requires Pow2(k) <= link < 2 * Pow2(k)
    ensures i == k
  {
    if i < k {
      Pow2Doubles(i, k);
    } else if k < i {
      Pow2Doubles(k, i);
    }
  }

  /** At link 2^k - 1 + lambda the checkpoint is the one of window `k`, one lap behind. */
  lemma CheckpointMeetsCycle(fat: Fat, s: nat, mu: nat, lambda: nat, k: nat)
    requires FatOk(fat) && IsRho(fat, s, mu, lambda) && LeastWindow(mu, lambda, k)
    requires Yields(fat, s, Pow2(k) - 1 + lambda)
    ensures After(fat, s, Pow2(k) - 1 + lambda).checkpoint == Walk(fat, s, Pow2(k) - 1 + lambda)
  {
    hide Next, Pow2, Walk;
    var link := Pow2(k) - 1 + lambda;
    var i := Reaches(fat, s, link);
    SameWindow(i, k, link);
    RhoEquality(fat, s, mu, lambda, Pow2(k) - 1, link);
  }

  /** A cycle is reported at link 2^k - 1 + lambda and no earlier, unless the visit bound
      fires first; in that call, and in no earlier one, the walker fails. */
  lemma CycleCaught(fat: Fat, s: nat, mu: nat, lambda: nat, k: nat)
    requires FatOk(fat) && IsRho(fat, s, mu, lambda) && LeastWindow(mu, lambda, k)
    ensures var link := Least(Pow2(k) - 1 + lambda, ClusterCount(fat));
            && Yields(fat, s, link)
            && Call(fat, s, link).Bad?
            && (Pow2(k) - 1 + lambda <= ClusterCount(fat) ==> CheckpointHit(fat, After(fat, s, link)))
  {
    hide Next, Pow2;
    var link := Least(Pow2(k) - 1 + lambda, ClusterCount(fat));
    RhoYields(fat, s, mu, lambda, k, link);
    var i := Reaches(fat, s, link);
    WalkAsFirstLap(fat, s, mu, lambda, link);
    if link == Pow2(k) - 1 + lambda {
      CheckpointMeetsCycle(fat, s, mu, lambda, k);
    }
    NextFrom(fat, s, After(fat, s, link), link, i);
  }

  /** Every tail and cycle have a window. */
  lemma WindowExists(mu: nat, lambda: nat) returns (k: nat)
    ensures LeastWindow(mu, lambda, k)
  {
    k := 0;
    while Pow2(k) - 1 < mu || Pow2(k) < lambda
      invariant forall i :: 0 <= i < k ==> Pow2(i) - 1 < mu || Pow2(i) < lambda
      decreases mu + lambda - k
    {
      k := k + 1;
    }
  }

  /** No link of the walk from `s` leads off the volume or to an end. */
  ghost predicate NeverLeaves(fat: Fat, s: nat) {
    forall i: nat :: ValidCluster(fat, Walk(fat, s, i))
  }

  /** A walk that never leaves the volume comes back to a cluster it has been to. */
  lemma RhoExists(fat: Fat, s: nat) returns (mu: nat, lambda: nat)
    requires FatOk(fat) && NeverLeaves(fat, s)
    ensures IsRho(fat, s, mu, lambda)
  {
    hide Walk, FatOk;
    var seen: seq<nat> := [];
    while Walk(fat, s, |seen|) !in seen
      invariant |seen| <= |fat| && forall i :: 0 <= i < |seen| ==> seen[i] == Walk(fat, s, i)
      invariant forall i, j :: 0 <= i < j < |seen| ==> seen[i] != seen[j]
      decreases |fat| - |seen|
    {
      var more := seen + [Walk(fat, s, |seen|)];
      forall i | 0 <= i < |more|
        ensures more[i] == Walk(fat, s, i) && ValidCluster(fat, more[i])
      {
        assert ValidCluster(fat, Walk(fat, s, i));
      }
      Pigeonhole(more, 2, |fat|);
      seen := more;
    }
    mu :| 0 <= mu < |seen| && seen[mu] == Walk(fat, s, |seen|);
    lambda := |seen| - mu;
    assert forall i :: 0 <= i < mu + lambda ==> seen[i] == Walk(fat, s, i);
  }

  /** Tails with cycles are all the walks that never leave, and on every one of them the walker fails
      where `CycleCaught` says. */
  lemma EveryCycleCaught(fat: Fat, s: nat) returns (mu: nat, lambda: nat, k: nat)
    requires FatOk(fat) && NeverLeaves(fat, s)
    ensures IsRho(fat, s, mu, lambda) && LeastWindow(mu, lambda, k)
    ensures var link := Least(Pow2(k) - 1 + lambda, ClusterCount(fat));
            && Yields(fat, s, link)
            && Call(fat, s, link).Bad?
            && (Pow2(k) - 1 + lambda <= ClusterCount(fat) ==> CheckpointHit(fat, After(fat, s, link)))
  {
    hide NeverLeaves, IsRho, LeastWindow, Yields, Call, Pow2, FatOk;
    mu, lambda := RhoExists(fat, s);
    k := WindowExists(mu, lambda);
    CycleCaught(fat, s, mu, lambda, k);
  }

  /** A tail with a cycle never leaves. */
  lemma RhoNeverLeaves(fat: Fat, s: nat, mu: nat, lambda: nat)
    requires IsRho(fat, s, mu, lambda)
    ensures NeverLeaves(fat, s)
  {
    hide IsRho;
    forall i: nat
      ensures ValidCluster(fat, Walk(fat, s, i))
    {
      WalkAsFirstLap(fat, s, mu, lambda, i);
    }
  }

  /** On every link graph the walker decides, after at most `ClusterCount` yields, whether
      the chain from `s` is well formed. */
  lemma WalkerDecides(fat: Fat, s: nat) returns (t: nat)
    requires FatOk(fat)
    ensures t <= ClusterCount(fat)
    ensures Yields(fat, s, t)
    ensures Call(fat, s, t) == if exists chain :: IsChain(fat, s, chain) then End else Bad
  {
    hide Next;
    t := 0;
    while Call(fat, s, t).Yield?
      invariant Yields(fat, s, t)
      invariant t <= ClusterCount(fat)
      decreases ClusterCount(fat) - t
    {
      EndMeansChain(fat, s, t);
      t := t + 1;
    }
    EndMeansChain(fat, s, t);
    if chain :| IsChain(fat, s, chain) {
      WalkerFollowsChain(fat, s, chain, t);
    }
  }
}
