/** Priority round robin: the circular scan, its fairness, and task states around a switch. */
module Scheduling {
  import opened Errors
  import opened Lists
  import opened Sequences
  import opened TaskTable

  const WORST: int := 32      // one worse than idle's priority

  // ---- The circular order ----

  /** The list as seen from position `c` on. */
  function Rot(order: seq<nat>, c: nat): (r: seq<nat>)
    requires c <= |order|
    ensures |r| == |order|
  {
    order[c..] + order[..c]
  }

  /** Going on from a node, over the list head, comes to the next node in the circular order. */
  lemma RotNext(n: nat, next: seq<nat>, prev: seq<nat>, order: seq<nat>, c: nat, j: nat)
    requires Ring(n, next, prev, order) && c < |order| && j < |order|
    ensures var x := Rot(order, c)[j];
      && x < |next| && next[x] < |next| && |next| == n + 1
      && var nx := if next[x] == n then next[n] else next[x];
         nx == Rot(order, c)[if j + 1 < |order| then j + 1 else 0] && ((nx == n || nx == order[c]) <==> j + 1 == |order|)
  {
    if j + 1 < |order| {
      RotApart(order, c, j + 1);
    }
    var i := if c + j < |order| then c + j else c + j - |order|;
    assert Rot(order, c)[j] == order[i];
    LinkAt(n, next, prev, order, i + 1);
    LinkAt(n, next, prev, order, 0);
  }

  lemma RotApart(order: seq<nat>, c: nat, k: nat)
    requires NoRepeat(order) && c < |order| && 0 < k < |order|
    ensures Rot(order, c)[0] == order[c] && Rot(order, c)[k] != order[c] && Rot(order, c)[k] in order
  {
  }

  lemma RotNoRepeat(order: seq<nat>, c: nat)
    requires NoRepeat(order) && c <= |order|
    ensures NoRepeat(Rot(order, c)) && forall x :: x in Rot(order, c) <==> x in order
  {
    assert order == order[..c] + order[c..];
  }

  // ---- Candidates ----

  /** What the scan sees: which tasks may run, and their priorities; smaller is better. */
  datatype View = View(eligible: set<nat>, prio: map<nat, int>)

  function Prio(v: View, x: nat): int {
    if x in v.prio then v.prio[x] else WORST
  }

  predicate Candidate(v: View, x: nat) {
    x in v.eligible && Prio(v, x) < WORST
  }

  /** Tasks that the scheduler may pick besides idle: runnable ones and the current one while it runs. */
  ghost predicate MayRun(phase: map<nat, Phase>, current: nat, idle: nat, x: nat) {
    x != idle && x in phase && (phase[x] == Runnable || (x == current && phase[x] == Running))
  }

  lemma NoCandidate(v: View, order: seq<nat>)
    ensures (forall x :: x in order ==> !Candidate(v, x)) <==> forall x :: x in order && x in v.eligible && x in v.prio ==> v.prio[x] > 31
  {
  }

  /** Nobody in `s` beats `x`. */
  ghost predicate Best(v: View, s: seq<nat>, x: nat) {
    x in s && Candidate(v, x) && forall y :: y in s && Candidate(v, y) ==> Prio(v, x) <= Prio(v, y)
  }

  /** `x` is the first of the best in `s`. */
  ghost predicate FirstBest(v: View, s: seq<nat>, x: nat) {
    Best(v, s, x) && exists i :: 0 <= i < |s| && s[i] == x && forall j :: 0 <= j < i ==> !Best(v, s, s[j])
  }

  /** What the scan holds after `s`: the first of the best, or nothing if there is no candidate. */
  ghost predicate Held(v: View, s: seq<nat>, pick: Option<nat>) {
    match pick
    case None => forall y :: y in s ==> !Candidate(v, y)
    case Some(x) => FirstBest(v, s, x)
  }

  function Better(v: View, pick: Option<nat>, x: nat): Option<nat> {
    if Candidate(v, x) && (pick.None? || Prio(v, x) < Prio(v, pick.value)) then Some(x) else pick
  }

  /** One more task scanned: only a strictly better one replaces what is held. */
  lemma HeldNext(v: View, s: seq<nat>, pick: Option<nat>, x: nat)
    requires Held(v, s, pick) && x !in s
    ensures Held(v, s + [x], Better(v, pick, x))
  {
    var s', p := s + [x], Better(v, pick, x);
    if p == Some(x) && Candidate(v, x) && (pick.None? || Prio(v, x) < Prio(v, pick.value)) {
      assert s'[|s|] == x;
      assert forall j :: 0 <= j < |s| ==> s'[j] == s[j] && s[j] in s;
    } else if pick.Some? {
      var i :| 0 <= i < |s| && s[i] == pick.value && forall j :: 0 <= j < i ==> !Best(v, s, s[j]);
      assert s'[i] == pick.value;
      forall j | 0 <= j < i
        ensures !Best(v, s', s'[j])
      {
        assert s'[j] == s[j] && s[j] in s && !Best(v, s, s[j]);
      }
    }
  }

  // ---- Fairness ----

  /** Tasks of `order` before position `c` that nobody beats. */
  ghost function Rank(v: View, order: seq<nat>, c: nat): nat
    requires c <= |order|
  {
    if c == 0 then 0 else Rank(v, order, c - 1) + (if Best(v, order, order[c - 1]) then 1 else 0)
  }

  lemma {:induction false} RankMono(v: View, order: seq<nat>, b: nat, c: nat)
    requires b <= c <= |order|
    ensures Rank(v, order, b) <= Rank(v, order, c)
    decreases c - b
  {
    if b < c {
      RankMono(v, order, b, c - 1);
    }
  }

  /** No best task in between means the same rank. */
  lemma {:induction false} RankSame(v: View, order: seq<nat>, b: nat, c: nat)
    requires b <= c <= |order| && forall i :: b <= i < c ==> !Best(v, order, order[i])
    ensures Rank(v, order, b) == Rank(v, order, c)
    decreases c - b
  {
    if b < c {
      RankSame(v, order, b, c - 1);
    }
  }

  /** The pick at position `i` comes next after position `c`: the first best task from `c` on, or
      else the first of all. */
  ghost predicate NextBest(v: View, order: seq<nat>, c: nat, i: nat) {
    && c <= |order| && i < |order| && Best(v, order, order[i])
    && if c <= i then forall j :: c <= j < i ==> !Best(v, order, order[j])
       else (forall j :: c <= j < |order| ==> !Best(v, order, order[j])) && forall j :: 0 <= j < i ==> !Best(v, order, order[j])
  }

  /** The pick's rank is that of the place the scan started from, or the first after the last. */
  lemma PickRank(v: View, order: seq<nat>, c: nat, i: nat)
    requires NextBest(v, order, c, i)
    ensures var k := Rank(v, order, |order|);
      && Rank(v, order, c) <= k && Rank(v, order, i) == (if Rank(v, order, c) == k then 0 else Rank(v, order, c))
      && Rank(v, order, i + 1) == Rank(v, order, i) + 1 <= k
  {
    hide Best;
    RankMono(v, order, i + 1, |order|);
    RankMono(v, order, c, |order|);
    if c <= i {
      RankSame(v, order, c, i);
    } else {
      RankSame(v, order, c, |order|);
      RankSame(v, order, 0, i);
    }
  }

  /** Consecutive picks: each scan starts right after the pick before. */
  ghost predicate Picks(v: View, order: seq<nat>, picks: seq<nat>) {
    && (forall t :: 0 <= t < |picks| ==> picks[t] < |order| && Best(v, order, order[picks[t]]))
    && forall t :: 0 < t < |picks| ==> NextBest(v, order, picks[t - 1] + 1, picks[t])
  }

  /** `d` picks on, the rank has gone `d` places round. */
  lemma {:induction false} PicksRank(v: View, order: seq<nat>, picks: seq<nat>, t: nat, d: nat)
    requires Picks(v, order, picks) && t + d < |picks| && d < Rank(v, order, |order|)
    ensures picks[t] < |order| && picks[t + d] < |order|
    ensures var k, r := Rank(v, order, |order|), Rank(v, order, picks[t]); Rank(v, order, picks[t + d]) == if r + d < k then r + d else r + d - k
    decreases d
  {
    hide Best;
    RankMono(v, order, picks[t] + 1, |order|);
    if d > 0 {
      PicksRank(v, order, picks, t, d - 1);
      PickRank(v, order, picks[t + d - 1] + 1, picks[t + d]);
      RankStep(v, order, picks[t + d - 1]);
    } else {
      RankStep(v, order, picks[t]);
    }
  }

  lemma RankStep(v: View, order: seq<nat>, i: nat)
    requires i < |order| && Best(v, order, order[i])
    ensures Rank(v, order, i + 1) == Rank(v, order, i) + 1 <= Rank(v, order, |order|)
  {
    RankMono(v, order, i + 1, |order|);
  }

  /** Different best tasks have different ranks. */
  lemma RankInjective(v: View, order: seq<nat>, i: nat, j: nat)
    requires i < j < |order| && Best(v, order, order[i])
    ensures Rank(v, order, i) < Rank(v, order, j)
  {
    RankMono(v, order, i + 1, j);
    RankStep(v, order, i);
  }

  /** The picks from the `t`-th on choose each of the best tasks exactly once. */
  ghost predicate EachOnce(v: View, order: seq<nat>, picks: seq<nat>, t: nat)
    requires t + Rank(v, order, |order|) <= |picks|
  {
    var window := picks[t..t + Rank(v, order, |order|)];
    NoRepeat(window) && forall i :: 0 <= i < |order| && Best(v, order, order[i]) ==> i in window
  }

  /** While nothing changes, any `k` picks in a row choose each of the `k` best tasks exactly once. */
  lemma Fair(v: View, order: seq<nat>, picks: seq<nat>, t: nat)
    requires Picks(v, order, picks) && t + Rank(v, order, |order|) <= |picks|
    ensures EachOnce(v, order, picks, t)
  {
    hide Best, Picks;
    var k := Rank(v, order, |order|);
    var window := picks[t..t + k];
    forall i | 0 <= i < |order| && Best(v, order, order[i])
      ensures i in window
    {
      RankStep(v, order, i);
      FirstRank(v, order, picks, t);
      var r, s := Rank(v, order, picks[t]), Rank(v, order, i);
      var d := if s >= r then s - r else k + s - r;
      PicksRank(v, order, picks, t, d);
      SameRank(v, order, picks, t + d, i);
      assert window[d] == i;
    }
    forall d, e | 0 <= d < e < |window|
      ensures window[d] != window[e]
    {
      PicksRank(v, order, picks, t, d);
      PicksRank(v, order, picks, t, e);
      FirstRank(v, order, picks, t);
    }
  }

  lemma FirstRank(v: View, order: seq<nat>, picks: seq<nat>, t: nat)
    requires Picks(v, order, picks) && t < |picks|
    ensures picks[t] < |order| && Rank(v, order, picks[t]) < Rank(v, order, |order|)
  {
    RankStep(v, order, picks[t]);
  }

  lemma SameRank(v: View, order: seq<nat>, picks: seq<nat>, t: nat, i: nat)
    requires Picks(v, order, picks) && t < |picks| && i < |order| && Best(v, order, order[i])
    requires picks[t] < |order| && Rank(v, order, picks[t]) == Rank(v, order, i)
    ensures picks[t] == i
  {
    if picks[t] < i {
      RankInjective(v, order, picks[t], i);
    } else if i < picks[t] {
      RankInjective(v, order, i, picks[t]);
    }
  }

  /** The first best task in circular order is the next best task in the list. */
  lemma RotFirst(v: View, order: seq<nat>, c: nat, x: nat) returns (i: nat)
    requires c <= |order| && NoRepeat(order) && FirstBest(v, Rot(order, c), x)
    ensures i < |order| && NextBest(v, order, c, i) && order[i] == x
  {
    hide Best;
    var rot := Rot(order, c);
    RotNoRepeat(order, c);
    BestSame(v, order, rot);
    var k :| 0 <= k < |rot| && rot[k] == x && forall j :: 0 <= j < k ==> !Best(v, rot, rot[j]);
    i := if c + k < |order| then c + k else c + k - |order|;
    forall j | 0 <= j < |order| && (if c <= i then c <= j < i else j < i || c <= j)
      ensures !Best(v, order, order[j])
    {
      var at := if c <= j then j - c else |order| - c + j;
      assert rot[at] == order[j] && at < k;
    }
  }

  /** A scan from behind the last task is a scan from the first. */
  lemma WrapStart(v: View, order: seq<nat>, i: nat)
    requires NextBest(v, order, 0, i)
    ensures NextBest(v, order, |order|, i)
  {
  }

  lemma RingNodes(n: nat, next: seq<nat>, prev: seq<nat>, order: seq<nat>)
    requires Ring(n, next, prev, order)
    ensures NoRepeat(order) && |next| == n + 1 && forall x :: x in order ==> x < n
  {
  }

  lemma ListBound(n: nat, next: seq<nat>, prev: seq<nat>, order: seq<nat>)
    requires Ring(n, next, prev, order)
    ensures NoRepeat(order) && n !in order
  {
  }

  /** A pick made from where the last one left the cursor follows it. */
  lemma MorePicks(v: View, n: nat, order: seq<nat>, picks: seq<nat>, cursor: Option<nat>, c: nat, i: nat)
    requires Picks(v, order, picks) && NextBest(v, order, c, i) && NoRepeat(order) && n !in order && c < |order|
    requires |picks| > 0 ==> picks[|picks| - 1] < |order| && cursor == Some(After(n, order, picks[|picks| - 1] + 1))
    requires order[c] == if cursor.None? || cursor.value == n then order[0] else cursor.value
    ensures Picks(v, order, picks + [i])
  {
    hide Best;
    var all := picks + [i];
    if |picks| > 0 {
      var last := picks[|picks| - 1];
      if last + 1 == |order| {
        assert c == 0;
        WrapStart(v, order, i);
      } else {
        assert After(n, order, last + 1) == order[last + 1] && order[last + 1] in order;
        assert c == last + 1;
      }
    }
    assert forall t :: 0 <= t < |picks| ==> all[t] == picks[t];
  }

  lemma Another(s: seq<nat>, j: nat)
    requires NoRepeat(s) && j < |s|
    ensures s[..j + 1] == s[..j] + [s[j]] && s[j] !in s[..j]
  {
  }

  lemma RotStart(v: View, order: seq<nat>, c: nat)
    requires c < |order|
    ensures Rot(order, c)[0] == order[c] && Rot(order, c)[..0] == [] && Held(v, [], None)
  {
  }

  lemma HeldOrder(v: View, order: seq<nat>, rot: seq<nat>, best: Option<nat>)
    requires Held(v, rot, best) && forall x :: x in rot <==> x in order
    ensures best.None? <==> forall x :: x in order ==> !Candidate(v, x)
    ensures best.Some? ==> FirstBest(v, rot, best.value) && best.value in order && Candidate(v, best.value)
  {
  }

  lemma BestSame(v: View, s: seq<nat>, t: seq<nat>)
    requires forall x :: x in s <==> x in t
    ensures forall x :: Best(v, s, x) <==> Best(v, t, x)
  {
  }

  // ---- The code ----

  /** The phases once the running task has made way. */
  function Handed(phase: map<nat, Phase>, current: nat): map<nat, Phase> {
    if current in phase && phase[current] == Running then phase[current := Runnable] else phase
  }

  class Scheduler {
    const n: nat                    // node n heads the task list
    const idle: nat
    var next: seq<nat>
    var prev: seq<nat>
    ghost var order: seq<nat>
    var phase: map<nat, Phase>
    var prio: map<nat, int>
    var current: nat
    var cursor: Option<nat>

    /** The cursor is unset, at the head, or at a listed task; only the current task runs. */
    ghost predicate Valid()
      reads this
    {
      && Ring(n, next, prev, order) && (cursor.Some? ==> cursor.value == n || cursor.value in order)
      && idle in order && current in order
      && (forall x :: x in order ==> x in phase) && phase[idle] in {Runnable, Running}
      && (forall x :: x in phase && phase[x] == Running ==> x == current)
    }

    /** Only idle is listed at first, and it runs. */
    constructor (n: nat, idle: nat)
      requires idle < n
      ensures Valid() && this.n == n && this.idle == idle && order == [idle] && current == idle && cursor == None
    {
      this.n, this.idle, current, cursor := n, idle, idle, None;
      next, prev := seq(n + 1, i => if i == n then idle else if i == idle then n else i), seq(n + 1, i => if i == n then idle else if i == idle then n else i);
      order, phase, prio := [idle], map[idle := Running], map[];
    }

    predicate Eligible(x: nat)
      reads `phase, `current
    {
      x != idle && x in phase && (phase[x] == Runnable || (x == current && phase[x] == Running))
    }

    function PrioOf(x: nat): int
      reads `prio
    {
      if x in prio then prio[x] else WORST
    }

    ghost function Seen(): View
      reads `phase, `current, `prio
    {
      View((set x | x in phase && Eligible(x)), prio)
    }

    lemma IdleWhen()
      ensures (forall x :: x in order ==> !Candidate(Seen(), x)) <==>
              forall x :: x in order && MayRun(phase, current, idle, x) && x in prio ==> prio[x] > 31
    {
      NoCandidate(Seen(), order);
    }

    /** Where the scan starts, as a position in the list. */
    ghost predicate StartsAt(c: nat)
      reads this
      requires Ring(n, next, prev, order)
    {
      c < |order| && order[c] == if cursor.None? || cursor.value == n then order[0] else cursor.value
    }

    /** Goes round the list once from node `first` on and holds the first of the best. */
    method Scan(first: nat, ghost c: nat, ghost v: View) returns (best: Option<nat>)
      requires Valid() && c < |order| && order[c] == first && v == Seen()
      ensures Held(v, Rot(order, c), best)
    {
      hide Best, Held, Ring, FirstBest, Rot, Candidate, Better, NoRepeat;
      ghost var rot := Rot(order, c);
      RingNodes(n, next, prev, order);
      RotNoRepeat(order, c);
      RotStart(v, order, c);
      best := None;
      var node, done := first, false;
      ghost var j := 0;
      while !done
        invariant j < |rot| && (!done ==> node == rot[j] && Held(v, rot[..j], best)) && (done ==> Held(v, rot, best))
        decreases |rot| - j, !done
      {
        Another(rot, j);
        HeldNext(v, rot[..j], best, node);
        ScanIsBetter(v, rot[..j], best, node);
        if Eligible(node) && PrioOf(node) < (if best.None? then WORST else PrioOf(best.value)) {
          best := Some(node);
        }
        RotNext(n, next, prev, order, c, j);
        var nx := next[node];
        if nx == n {
          nx := next[nx];
        }
        if nx == n || nx == first {
          done := true;
          assert rot[..j + 1] == rot;
        } else {
          node := nx;
          j := j + 1;
        }
      }
    }

    /** Scans the circle once from the cursor: the first of the best, or idle if nobody can run. */
    method PickNext() returns (pick: nat, ghost c: nat)
      requires Valid()
      modifies `cursor
      ensures Valid() && old(StartsAt(c))
      ensures pick == idle <==> forall x :: x in order ==> !Candidate(Seen(), x)
      ensures pick == idle <==> forall x :: x in order && MayRun(phase, current, idle, x) && x in prio ==> prio[x] > 31
      ensures pick != idle ==> exists i: nat :: i < |order| && NextBest(Seen(), order, c, i) && order[i] == pick && Follows(i)
    {
      hide Best, Held, Ring, FirstBest, Rot, NextBest, Candidate, NoRepeat, MayRun, Eligible;
      ghost var v := Seen();
      IdleWhen();
      RingNodes(n, next, prev, order);
      LinkAt(n, next, prev, order, 0);
      if cursor.None? || cursor.value == n {
        cursor := Some(next[n]);
      }
      c :| c < |order| && order[c] == cursor.value;
      assert Seen() == v;
      var best := Scan(cursor.value, c, v);
      RotNoRepeat(order, c);
      HeldOrder(v, order, Rot(order, c), best);
      if best.None? {
        pick := idle;
      } else {
        pick := best.value;
        IdleNeverHeld(v, pick);
        ghost var i := RotFirst(v, order, c, pick);
        LinkAt(n, next, prev, order, i + 1);
        cursor := Some(next[pick]);
        assert Seen() == v;
        assert NextBest(Seen(), order, c, i) && Follows(i);
        assert pick in order && Candidate(Seen(), pick);
      }
      assert Seen() == v;
    }

    /** A new task goes to the front of the list; what the other tasks may do does not change. */
    method AddTask(t: nat, priority: int)
      requires Valid() && t < n && t !in order && t !in phase
      modifies `next, `prev, `order, `phase, `prio
      ensures Valid() && order == [t] + old(order) && Eligible(t) && PrioOf(t) == priority
      ensures forall x :: x != t ==> Eligible(x) == old(Eligible(x)) && PrioOf(x) == old(PrioOf(x))
    {
      hide Ring, LinkOk;
      RingNodes(n, next, prev, order);
      LinkAt(n, next, prev, order, 0);
      Linked(n, next, prev, order, 0, t);
      assert order[..0] + [t] + order[0..] == [t] + order;
      var a := next[n];
      next := next[t := a][n := t];
      prev := prev[t := n][a := t];
      order := [t] + order;
      phase, prio := phase[t := Runnable], prio[t := priority];
    }

    /** Takes task `t` off the list; the cursor lets go of it first. */
    method TaskRemoved(t: nat, ghost k: nat)
      requires Valid() && t != idle && t != current && k < |order| && order[k] == t
      modifies `cursor, `next, `prev, `order
      ensures Valid() && order == old(order)[..k] + old(order)[k + 1..] && t !in order && cursor != Some(t)
    {
      hide Ring, LinkOk;
      RingNodes(n, next, prev, order);
      RemovedNodes(order, k);
      Unlinked(n, next, prev, order, k);
      if cursor == Some(t) {
        cursor := None;
      }
      var b, a := prev[t], next[t];
      next := next[b := a][t := t];
      prev := prev[a := b][t := t];
      order := order[..k] + order[k + 1..];
    }

    /** The processor goes to `chosen`: at most one task runs, before and after. */
    method SwitchTo(chosen: nat)
      requires Valid() && chosen in order && (chosen == current || phase[chosen] != Zombie)
      modifies `phase, `current
      ensures Valid() && current == chosen
      ensures chosen != old(current) ==> phase[chosen] == Running && forall x :: x in phase && phase[x] == Running ==> x == chosen
      ensures phase == if chosen == old(current) then old(phase) else Handed(old(phase), old(current))[chosen := Running]
      ensures forall x :: x in order && x != chosen && x != old(current) ==> phase[x] == old(phase)[x]
    {
      if chosen != current {
        if phase[current] == Running {
          phase := phase[current := Runnable];
        }
        current := chosen;
        phase := phase[chosen := Running];
      }
    }

    /** Picks a task and runs it, which changes nobody's chances. */
    method Schedule() returns (pick: nat, ghost c: nat)
      requires Valid()
      modifies `cursor, `phase, `current
      ensures Valid() && old(StartsAt(c)) && current == pick && Seen() == old(Seen())
      ensures pick == idle <==> forall x :: x in order ==> !Candidate(Seen(), x)
      ensures pick != old(current) ==> phase[pick] == Running
      ensures pick != idle ==> exists i: nat :: i < |order| && NextBest(Seen(), order, c, i) && order[i] == pick && Follows(i)
    {
      hide Best, Ring, NextBest, Candidate;
      ghost var v := Seen();
      pick, c := PickNext();
      assert Seen() == v;
      if pick != idle {
        PickRuns(pick, c);
      }
      SwitchTo(pick);
      assert forall x :: x in phase <==> x in old(phase);
      assert forall x :: Eligible(x) == old(Eligible(x));
      assert Seen() == v;
    }

    lemma PickRuns(pick: nat, c: nat)
      requires pick != idle && exists i: nat :: i < |order| && NextBest(Seen(), order, c, i) && order[i] == pick && Follows(i)
      ensures pick in order && Eligible(pick)
    {
    }

    /** `k` calls of `schedule` in a row, as long as somebody can run and nothing else happens: any
        window as long as there are best tasks runs each of these exactly once. */
    method ScheduleMany(k: nat) returns (ghost picks: seq<nat>)
      requires Valid() && exists x :: x in order && Candidate(Seen(), x)
      modifies `cursor, `phase, `current
      ensures Valid() && Seen() == old(Seen()) && |picks| == k && Picks(Seen(), order, picks) && (k > 0 ==> current == order[picks[k - 1]])
      ensures forall t: nat :: t + Rank(Seen(), order, |order|) <= k ==> EachOnce(Seen(), order, picks, t)
    {
      hide Best, NextBest, Candidate, Ring, Rank, NoRepeat;
      ghost var v := Seen();
      picks := [];
      for t := 0 to k
        invariant Valid() && Seen() == v && |picks| == t && Picks(v, order, picks)
        invariant t > 0 ==> Follows(picks[t - 1]) && current == order[picks[t - 1]]
      {
        ghost var before := cursor;
        var pick;
        ghost var c;
        pick, c := Schedule();
        assert Seen() == v;
        ghost var i: nat :| i < |order| && NextBest(v, order, c, i) && order[i] == pick && Follows(i);
        ListBound(n, next, prev, order);
        MorePicks(v, n, order, picks, before, c, i);
        picks := picks + [i];
      }
      forall t: nat | t + Rank(v, order, |order|) <= k
        ensures EachOnce(v, order, picks, t)
      {
        Fair(v, order, picks, t);
      }
    }

    lemma IdleNeverHeld(v: View, x: nat)
      requires v == Seen() && Candidate(v, x)
      ensures x != idle
    {
    }

    /** The scan's comparison, which starts from one worse than idle, keeps the better task. */
    lemma ScanIsBetter(v: View, s: seq<nat>, best: Option<nat>, x: nat)
      requires v == Seen() && Held(v, s, best)
      ensures Better(v, best, x) == if Eligible(x) && PrioOf(x) < (if best.None? then WORST else PrioOf(best.value)) then Some(x) else best
    {
    }

    /** The node after position `i`: where the next scan starts. */
    ghost predicate Follows(i: nat)
      reads this
    {
      i < |order| && cursor == Some(After(n, order, i + 1))
    }
  }
}
