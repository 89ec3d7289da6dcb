/** Intrusive circular doubly linked lists: the links against the sequence they stand for. */
module Lists {
  import opened Sequences

  // Node `n` is the list head; nodes below `n` are embedded in the objects that can be listed.

  /** The node before and after the gap at position `k` of the list. */
  function Before(n: nat, order: seq<nat>, k: nat): nat
    requires k <= |order|
  {
    if k == 0 then n else order[k - 1]
  }

  function After(n: nat, order: seq<nat>, k: nat): nat
    requires k <= |order|
  {
    if k == |order| then n else order[k]
  }

  /** The nodes on the two sides of the gap at `k` are linked to each other. */
  ghost predicate LinkOk(n: nat, next: seq<nat>, prev: seq<nat>, order: seq<nat>, k: nat)
    requires k <= |order|
  {
    var b, a := Before(n, order, k), After(n, order, k);
    b < |next| && a < |prev| && next[b] == a && prev[a] == b
  }

  /** The links run through the head and `order` in a circle, both ways; other nodes link to themselves. */
  ghost predicate Ring(n: nat, next: seq<nat>, prev: seq<nat>, order: seq<nat>) {
    && |next| == n + 1 && |prev| == n + 1 && NoRepeat(order)
    && (forall i :: 0 <= i < |order| ==> order[i] < n)
    && (forall k :: 0 <= k <= |order| ==> LinkOk(n, next, prev, order, k))
    && (forall x :: 0 <= x < n && x !in order ==> next[x] == x && prev[x] == x)
  }

  lemma LinkAt(n: nat, next: seq<nat>, prev: seq<nat>, order: seq<nat>, k: nat)
    requires Ring(n, next, prev, order) && k <= |order|
    ensures Before(n, order, k) <= n && After(n, order, k) <= n && |next| == n + 1 && |prev| == n + 1
    ensures next[Before(n, order, k)] == After(n, order, k) && prev[After(n, order, k)] == Before(n, order, k)
  {
    assert LinkOk(n, next, prev, order, k);
  }

  /** Inserting `e` into the gap at `k`. */
  lemma Linked(n: nat, next: seq<nat>, prev: seq<nat>, order: seq<nat>, k: nat, e: nat)
    requires Ring(n, next, prev, order) && k <= |order| && e < n && e !in order
    ensures var b, a := Before(n, order, k), After(n, order, k);
      b <= n && a <= n && |next| == n + 1 == |prev| && Ring(n, next[e := a][b := e], prev[e := b][a := e], order[..k] + [e] + order[k..])
  {
    hide LinkOk;
    LinkAt(n, next, prev, order, k);
    var b, a, order' := Before(n, order, k), After(n, order, k), order[..k] + [e] + order[k..];
    var next', prev' := next[e := a][b := e], prev[e := b][a := e];
    InsertedNodes(order, k, e);
    forall j | 0 <= j <= |order'|
      ensures LinkOk(n, next', prev', order', j)
    {
      LinkedAt(n, next, prev, order, k, e, j);
    }
  }

  lemma LinkedAt(n: nat, next: seq<nat>, prev: seq<nat>, order: seq<nat>, k: nat, e: nat, j: nat)
    requires Ring(n, next, prev, order) && k <= |order| && e < n && e !in order && j <= |order| + 1
    ensures var b, a, order' := Before(n, order, k), After(n, order, k), order[..k] + [e] + order[k..];
      b <= n && a <= n && |next| == n + 1 == |prev| && LinkOk(n, next[e := a][b := e], prev[e := b][a := e], order', j)
  {
    LinkAt(n, next, prev, order, k);
    LinkAt(n, next, prev, order, if j <= k then j else j - 1);
  }

  lemma InsertedNodes(order: seq<nat>, k: nat, e: nat)
    requires NoRepeat(order) && k <= |order| && e !in order
    ensures NoRepeat(order[..k] + [e] + order[k..])
    ensures forall x :: x in order[..k] + [e] + order[k..] <==> x == e || x in order
  {
    assert order == order[..k] + order[k..];
  }

  /** Taking the node at position `k` out. */
  lemma Unlinked(n: nat, next: seq<nat>, prev: seq<nat>, order: seq<nat>, k: nat)
    requires Ring(n, next, prev, order) && k < |order|
    ensures var e := order[k];
      && e < n && |next| == n + 1 == |prev| && next[e] <= n && prev[e] <= n
      && Ring(n, next[prev[e] := next[e]][e := e], prev[next[e] := prev[e]][e := e], order[..k] + order[k + 1..])
  {
    hide LinkOk;
    var e, order' := order[k], order[..k] + order[k + 1..];
    LinkAt(n, next, prev, order, k);
    LinkAt(n, next, prev, order, k + 1);
    var next', prev' := next[prev[e] := next[e]][e := e], prev[next[e] := prev[e]][e := e];
    RemovedNodes(order, k);
    forall j | 0 <= j <= |order'|
      ensures LinkOk(n, next', prev', order', j)
    {
      UnlinkedAt(n, next, prev, order, k, j);
    }
  }

  lemma UnlinkedAt(n: nat, next: seq<nat>, prev: seq<nat>, order: seq<nat>, k: nat, j: nat)
    requires Ring(n, next, prev, order) && k < |order| && j < |order|
    ensures var e := order[k];
      && e < n && |next| == n + 1 == |prev| && next[e] <= n && prev[e] <= n
      && LinkOk(n, next[prev[e] := next[e]][e := e], prev[next[e] := prev[e]][e := e], order[..k] + order[k + 1..], j)
  {
    LinkAt(n, next, prev, order, k);
    LinkAt(n, next, prev, order, k + 1);
    LinkAt(n, next, prev, order, if j <= k then j else j + 1);
  }

  lemma RemovedNodes(order: seq<nat>, k: nat)
    requires NoRepeat(order) && k < |order|
    ensures NoRepeat(order[..k] + order[k + 1..])
    ensures forall x :: x in order[..k] + order[k + 1..] <==> x != order[k] && x in order
  {
    assert order == order[..k] + [order[k]] + order[k + 1..];
  }
}
