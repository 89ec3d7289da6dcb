/** The first-fit frame allocator over an intrusive circular list of free runs. */
module FirstFit {
  import opened Errors
  import opened Lists
  import opened Sequences

  // ---- Runs of free pages: node `x` heads the run of `size[x]` pages from page `x` on ----

  /** The two runs share no page. */
  predicate Clear(size: seq<nat>, x: nat, y: nat)
    requires x < |size| && y < |size|
  {
    x + size[x] <= y || y + size[y] <= x
  }

  /** Runs lie inside memory, are not empty and do not overlap. */
  ghost predicate Apart(n: nat, order: seq<nat>, size: seq<nat>) {
    && |size| == n
    && (forall x :: x in order ==> x < n && 0 < size[x] && x + size[x] <= n)
    && forall x, y :: x in order && y in order && x != y ==> Clear(size, x, y)
  }

  /** No run ends where another starts. */
  ghost predicate Spaced(order: seq<nat>, size: seq<nat>) {
    forall x, y :: x in order && y in order ==> x + At(size, x) != y
  }

  ghost predicate InRun(size: seq<nat>, x: nat, p: nat) {
    x < |size| && x <= p < x + size[x]
  }

  /** Page `p` is free. */
  ghost predicate Free(order: seq<nat>, size: seq<nat>, p: nat) {
    exists x :: x in order && InRun(size, x, p)
  }

  function At(size: seq<nat>, x: nat): nat {
    if x < |size| then size[x] else 0
  }

  ghost function Total(order: seq<nat>, size: seq<nat>): nat {
    if order == [] then 0 else At(size, order[0]) + Total(order[1..], size)
  }

  lemma {:induction false} TotalJoin(a: seq<nat>, b: seq<nat>, size: seq<nat>)
    ensures Total(a + b, size) == Total(a, size) + Total(b, size)
  {
    if a == [] {
      assert a + b == b;
    } else {
      assert (a + b)[1..] == a[1..] + b;
      TotalJoin(a[1..], b, size);
    }
  }

  lemma {:induction false} TotalFrame(order: seq<nat>, size: seq<nat>, size': seq<nat>)
    requires forall x :: x in order ==> At(size', x) == At(size, x)
    ensures Total(order, size') == Total(order, size)
  {
    if order != [] {
      TotalFrame(order[1..], size, size');
    }
  }

  lemma {:induction false} TotalAtLeast(order: seq<nat>, size: seq<nat>, x: nat)
    requires x in order
    ensures Total(order, size) >= At(size, x)
  {
    if order[0] != x {
      TotalAtLeast(order[1..], size, x);
    }
  }

  // ---- Allocation ----

  /** The first run that holds `pages` pages is at position `k`. */
  ghost predicate FirstAt(order: seq<nat>, size: seq<nat>, pages: nat, k: nat) {
    k < |order| && At(size, order[k]) >= pages && forall i :: 0 <= i < k ==> At(size, order[i]) < pages
  }

  /** What is left of the run at `k` takes its place in the list. */
  ghost function Carved(order: seq<nat>, size: seq<nat>, k: nat, pages: nat): seq<nat>
    requires k < |order|
  {
    order[..k] + (if At(size, order[k]) > pages then [order[k] + pages] else []) + order[k + 1..]
  }

  ghost function CarvedSize(size: seq<nat>, r: nat, pages: nat): seq<nat>
    requires r < |size| && r + size[r] <= |size|
  {
    if size[r] > pages then size[r + pages := size[r] - pages] else size
  }

  /** `order'` lists the runs of `order` with `pages` pages taken from the front of run `r`. */
  ghost predicate Carves(order: seq<nat>, order': seq<nat>, size: seq<nat>, r: nat, pages: nat) {
    && r in order
    && forall x :: x in order' <==> (x in order && x != r) || (x == r + pages && At(size, r) > pages)
  }

  lemma CarvedNodes(order: seq<nat>, size: seq<nat>, k: nat, pages: nat)
    requires NoRepeat(order) && k < |order|
    ensures Carves(order, Carved(order, size, k, pages), size, order[k], pages)
  {
    assert order == order[..k] + [order[k]] + order[k + 1..];
  }

  lemma CarvedApart(n: nat, order: seq<nat>, order': seq<nat>, size: seq<nat>, r: nat, pages: nat)
    requires Apart(n, order, size) && Carves(order, order', size, r, pages) && r < n && 0 < pages <= size[r]
    ensures Apart(n, order', CarvedSize(size, r, pages)) && (size[r] > pages ==> r + pages !in order)
    ensures Spaced(order, size) ==> Spaced(order', CarvedSize(size, r, pages))
  {
    var size' := CarvedSize(size, r, pages);
    forall x | x in order && x != r
      ensures Clear(size, x, r) && (size[r] > pages ==> x != r + pages) && size'[x] == size[x]
    {
    }
    forall x, y | x in order' && y in order' && x != y
      ensures Clear(size', x, y)
    {
      if x in order && y in order {
        assert Clear(size, x, y);
      } else {
        assert Clear(size, if x in order then x else y, r);
      }
    }
    if Spaced(order, size) {
      forall x, y | x in order' && y in order'
        ensures x + At(size', x) != y
      {
        var x0, y0 := if x in order then x else r, if y in order then y else r;
        assert x0 + At(size, x0) != y0;
        if y !in order && x in order {
          assert Clear(size, x, r);
        }
      }
    }
  }

  lemma CarvedTotal(n: nat, order: seq<nat>, size: seq<nat>, k: nat, r: nat, pages: nat)
    requires Apart(n, order, size) && NoRepeat(order) && k < |order| && order[k] == r && r < n && 0 < pages <= size[r]
    ensures Total(Carved(order, size, k, pages), CarvedSize(size, r, pages)) + pages == Total(order, size)
  {
    hide Total, Apart, NoRepeat, Carves;
    RunFits(n, order, size, k);
    CarvedNodes(order, size, k, pages);
    CarvedApart(n, order, Carved(order, size, k, pages), size, r, pages);
    var a, b := order[..k], order[k + 1..];
    assert order == a + [r] + b;
    assert forall x :: x in a || x in b ==> x in order;
    CarvedSum(a, b, size, r, pages);
  }

  lemma RunFits(n: nat, order: seq<nat>, size: seq<nat>, k: nat)
    requires Apart(n, order, size) && k < |order|
    ensures |size| == n && order[k] < n && order[k] + size[order[k]] <= n
  {
    assert order[k] in order;
  }

  lemma CarvedSum(a: seq<nat>, b: seq<nat>, size: seq<nat>, r: nat, pages: nat)
    requires r < |size| && r + size[r] <= |size| && pages <= size[r] && (size[r] > pages ==> r + pages !in a && r + pages !in b)
    ensures var rest := if size[r] > pages then [r + pages] else [];
      Total(a + rest + b, CarvedSize(size, r, pages)) + pages == Total(a + [r] + b, size)
  {
    hide Total;
    var size' := CarvedSize(size, r, pages);
    var rest := if size[r] > pages then [r + pages] else [];
    TotalThree(a, [r], b, size);
    TotalThree(a, rest, b, size');
    TotalFrame(a, size, size');
    TotalFrame(b, size, size');
    TotalOne(r, size);
    TotalRest(rest, size', r + pages);
  }

  lemma TotalThree(a: seq<nat>, m: seq<nat>, b: seq<nat>, size: seq<nat>)
    ensures Total(a + m + b, size) == Total(a, size) + Total(m, size) + Total(b, size)
  {
    TotalJoin(a + m, b, size);
    TotalJoin(a, m, size);
  }

  lemma TotalOne(r: nat, size: seq<nat>)
    ensures Total([r], size) == At(size, r)
  {
  }

  lemma TotalRest(rest: seq<nat>, size: seq<nat>, x: nat)
    requires rest == [] || rest == [x]
    ensures Total(rest, size) == if rest == [] then 0 else At(size, x)
  {
  }

  lemma CarvedFree(n: nat, order: seq<nat>, order': seq<nat>, size: seq<nat>, r: nat, pages: nat, p: nat)
    requires Apart(n, order, size) && Carves(order, order', size, r, pages) && r < n && 0 < pages <= size[r]
    ensures Free(order', CarvedSize(size, r, pages), p) <==> Free(order, size, p) && !(r <= p < r + pages)
  {
    CarvedApart(n, order, order', size, r, pages);
    var size' := CarvedSize(size, r, pages);
    if Free(order', size', p) {
      var x :| x in order' && InRun(size', x, p);
      if x == r + pages && size[r] > pages {
        assert InRun(size, r, p);
      } else {
        assert InRun(size, x, p) && Clear(size, x, r);
      }
    }
    if Free(order, size, p) && !(r <= p < r + pages) {
      var x :| x in order && InRun(size, x, p);
      assert InRun(size', if x == r then r + pages else x, p);
    }
  }

  // ---- Freeing ----

  /** The nodes outside `lo..hi`, in list order. */
  ghost function Outsiders(order: seq<nat>, lo: nat, hi: nat): seq<nat> {
    if order == [] then []
    else
      var head := Outsiders(order[..|order| - 1], lo, hi);
      var x := order[|order| - 1];
      if lo <= x < hi then head else head + [x]
  }

  lemma {:induction false} OutsidersAre(order: seq<nat>, lo: nat, hi: nat)
    ensures forall x :: x in Outsiders(order, lo, hi) <==> x in order && !(lo <= x < hi)
  {
    if order != [] {
      OutsidersAre(order[..|order| - 1], lo, hi);
      assert order == order[..|order| - 1] + [order[|order| - 1]];
    }
  }

  lemma {:induction false} OutsidersSame(order: seq<nat>, lo: nat, hi: nat, lo': nat, hi': nat)
    requires forall x :: x in order ==> (lo <= x < hi <==> lo' <= x < hi')
    ensures Outsiders(order, lo, hi) == Outsiders(order, lo', hi')
  {
    if order != [] {
      var rest, x := order[..|order| - 1], order[|order| - 1];
      assert order == rest + [x] && x in order;
      assert forall y :: y in rest ==> y in order;
      OutsidersSame(order[..|order| - 1], lo, hi, lo', hi');
    }
  }

  /** The block does not overlap any run. */
  ghost predicate Outside(order: seq<nat>, size: seq<nat>, base: nat, pages: nat) {
    forall x :: x in order ==> x + At(size, x) <= base || base + pages <= x
  }

  /** The block is not next to any run. */
  ghost predicate Untouched(order: seq<nat>, size: seq<nat>, lo: nat, hi: nat) {
    forall x :: x in order ==> x + At(size, x) != lo && hi != x
  }

  /** The pages of the listed runs and of `lo..hi` are those of the runs of `order0` and of `base..base + pages`. */
  ghost predicate SamePages(order0: seq<nat>, order: seq<nat>, size: seq<nat>, base: nat, pages: nat, lo: nat, hi: nat) {
    forall p: nat :: Free(order, size, p) || lo <= p < hi <==> Free(order0, size, p) || base <= p < base + pages
  }

  // ---- The allocator ----

  class PageAllocator {
    const n: nat                     // pages of memory; node n is the list head
    var next: seq<nat>
    var prev: seq<nat>
    var size: seq<nat>
    var count: nat                   // free pages
    ghost var order: seq<nat>

    ghost predicate Valid()
      reads this
    {
      Ring(n, next, prev, order) && Apart(n, order, size) && count == Total(order, size)
    }

    /** No page is free at first. */
    constructor (n: nat)
      ensures Valid() && this.n == n && order == [] && count == 0 && Spaced(order, size)
    {
      this.n := n;
      next, prev, size := seq(n + 1, i => i), seq(n + 1, i => i), seq(n, _ => 0);
      count := 0;
      order := [];
    }

    /** Links `e` in after node `x`, the one before the gap at `k`. */
    method AddAfter(x: nat, e: nat, ghost k: nat)
      requires Ring(n, next, prev, order) && k <= |order| && x == Before(n, order, k) && e < n && e !in order
      modifies `next, `prev, `order
      ensures Ring(n, next, prev, order) && order == old(order)[..k] + [e] + old(order)[k..]
    {
      LinkAt(n, next, prev, order, k);
      Linked(n, next, prev, order, k, e);
      var after := next[x];
      prev := prev[e := x][after := e];
      next := next[e := after][x := e];
      order := order[..k] + [e] + order[k..];
    }

    method Unlink(e: nat, ghost k: nat)
      requires Ring(n, next, prev, order) && k < |order| && order[k] == e
      modifies `next, `prev, `order
      ensures Ring(n, next, prev, order) && order == old(order)[..k] + old(order)[k + 1..]
    {
      Unlinked(n, next, prev, order, k);
      var b, a := prev[e], next[e];
      next := next[b := a][e := e];
      prev := prev[a := b][e := e];
      order := order[..k] + order[k + 1..];
    }

    /** Adds a run of pages, as it is: runs are spaced afterwards exactly if they were and the new one touches none. */
    method InitMemmap(base: nat, pages: nat)
      requires Valid() && 0 < pages && base + pages <= n && Outside(order, size, base, pages)
      modifies this
      ensures Valid() && order == old(order) + [base] && count == old(count) + pages && size == old(size)[base := pages]
      ensures Spaced(order, size) <==> Spaced(old(order), old(size)) && Untouched(old(order), old(size), base, base + pages)
    {
      hide Ring, Total, Spaced, Untouched;
      size := size[base := pages];
      count := count + pages;
      TotalFrame(order, old(size), size);
      assert base !in order;
      LastLink(n, next, prev, order);
      AddAfter(prev[n], base, |order|);
      assert order == old(order) + [base];
      TotalJoin(old(order), [base], size);
      TotalOne(base, size);
      AddedSpaced(n, old(order), old(size), base, pages);
    }

    /** First fit: the head of the first run with enough pages, or nothing when no run has. */
    method Alloc(pages: nat) returns (r: Option<nat>)
      requires Valid() && 0 < pages
      modifies this
      ensures Valid()
      ensures r.None? ==> unchanged(this) && forall x :: x in order ==> At(size, x) < pages
      ensures r.Some? ==> exists k: nat ::
                FirstAt(old(order), old(size), pages, k) && r.value == old(order)[k] && order == Carved(old(order), old(size), k, pages)
      ensures r.Some? ==> count + pages == old(count) && (Spaced(old(order), old(size)) ==> Spaced(order, size))
      ensures r.Some? ==> forall p: nat :: Free(order, size, p) <==> Free(old(order), old(size), p) && !(r.value <= p < r.value + pages)
    {
      hide Total, Apart;
      if pages > count {
        NoneFits(order, size, pages);
        return None;
      }
      FirstLink(n, next, prev, order);
      var node := next[n];
      ghost var k := 0;
      while node != n
        invariant unchanged(this) && k <= |order| && node == After(n, order, k)
        invariant forall i :: 0 <= i < k ==> At(size, order[i]) < pages
        decreases |order| - k
      {
        RunFits(n, order, size, k);
        if size[node] >= pages {
          break;
        }
        LinkAt(n, next, prev, order, k + 1);
        node := next[node];
        k := k + 1;
      }
      if node == n {
        return None;
      }
      Carve(node, pages, k);
      r := Some(node);
      assert FirstAt(old(order), old(size), pages, k);
    }

    /** Takes `pages` pages from the front of the run at position `k`. */
    method Carve(node: nat, pages: nat, ghost k: nat)
      requires Valid() && k < |order| && order[k] == node && node < |size| && 0 < pages <= size[node]
      modifies this
      ensures Valid() && order == Carved(old(order), old(size), k, pages) && count + pages == old(count)
      ensures Spaced(old(order), old(size)) ==> Spaced(order, size)
      ensures forall p: nat :: Free(order, size, p) <==> Free(old(order), old(size), p) && !(node <= p < node + pages)
    {
      hide Total, Apart, Ring, Free, Carves, Spaced;
      ghost var order' := Carved(order, size, k, pages);
      RunFits(n, order, size, k);
      RingNodes(n, next, prev, order);
      CarvedNodes(order, size, k, pages);
      CarvedApart(n, order, order', size, node, pages);
      CarvedTotal(n, order, size, k, node, pages);
      forall p: nat {
        CarvedFree(n, order, order', size, node, pages, p);
      }
      if size[node] > pages {
        var remaining := node + pages;
        size := size[remaining := size[node] - pages];
        AddAfter(node, remaining, k + 1);
      }
      Unlink(node, k);
      assert order == order';
      count := count - pages;
    }

    /** Gives back `pages` pages from `base` on: one pass over the list takes the runs that touch the
        block out and merges them into it, and the merged run goes to the end of the list. */
    method Release(base: nat, pages: nat)
      requires Valid() && 0 < pages && base + pages <= n && Outside(order, size, base, pages)
      modifies this
      ensures Valid() && count == old(count) + pages
      ensures forall p: nat :: Free(order, size, p) <==> Free(old(order), old(size), p) || base <= p < base + pages
      ensures Spaced(old(order), old(size)) ==> Spaced(order, size)
      ensures exists lo, hi :: MergedInto(old(order), old(size), order, size, base, pages, lo, hi)
    {
      hide Total, Apart, Ring, Free, Outsiders, Pass, Stands, Outside, Spaced;
      ghost var order0, size0 := order, size;
      ghost var i: nat, lo: nat, hi: nat := 0, base, base + pages;
      RingBound(n, next, prev, order);
      FirstLink(n, next, prev, order);
      PassStart(n, order, size, base, pages);
      size := size[base := pages];
      var head, le, last := base, next[n], n;
      while le != n
        invariant i <= |order0| && Ring(n, next, prev, order) && count == old(count)
        invariant Pass(n, order0, size0, order, size, base, pages, i, lo, hi) && head == lo
        invariant Stands(n, order, |Outsiders(order0[..i], lo, hi)|, le, last)
        decreases |order0| - i
      {
        PassNode(n, order0, size0, order, size, base, pages, i, lo, hi, le, last);
        le, last, head, lo, hi := PassStep(le, last, head, order0, size0, base, pages, i, lo, hi);
        i := i + 1;
      }
      RingBound(n, next, prev, order);
      PassEnd(n, order0, size0, order, size, base, pages, i, lo, hi, last);
      PassMerged(n, order0, size0, order, size, base, pages, i, lo, hi);
      count := count + pages;
      AddAfter(last, head, |order|);
      assert order == Outsiders(order0, lo, hi) + [lo];
    }

    /** One node of the pass: part of the block if it touches it, else passed over. */
    method PassStep(le: nat, last: nat, head: nat, ghost order0: seq<nat>, ghost size0: seq<nat>, ghost base: nat, ghost pages: nat,
                    ghost i: nat, ghost lo: nat, ghost hi: nat)
      returns (le': nat, last': nat, head': nat, ghost lo': nat, ghost hi': nat)
      requires Ring(n, next, prev, order) && Pass(n, order0, size0, order, size, base, pages, i, lo, hi) && head == lo
      requires i < |order0| && Stands(n, order, |Outsiders(order0[..i], lo, hi)|, le, last) && le != n
      modifies `next, `prev, `order, `size
      ensures Ring(n, next, prev, order) && Pass(n, order0, size0, order, size, base, pages, i + 1, lo', hi') && head' == lo'
      ensures Stands(n, order, |Outsiders(order0[..i + 1], lo', hi')|, le', last')
    {
      hide Total, Apart, Ring, Outsiders, Pass, Outside;
      ghost var k := |Outsiders(order0[..i], lo, hi)|;
      PassNode(n, order0, size0, order, size, base, pages, i, lo, hi, le, last);
      RingStep(n, next, prev, order, k);
      le', last', head', lo', hi' := next[le], last, head, lo, hi;
      if head + size[head] == le {
        hi' := hi + At(size0, le);
        PassJoin(n, order0, size0, order, size, size[head := size[head] + size[le]], base, pages, i, lo, hi, le, lo', hi');
        StandsDropped(n, order, k);
        size := size[head := size[head] + size[le]];
        Unlink(le, k);
      } else if le + size[le] == head {
        lo' := le;
        PassJoin(n, order0, size0, order, size, size[le := size[le] + size[head]], base, pages, i, lo, hi, le, lo', hi');
        StandsDropped(n, order, k);
        size := size[le := size[le] + size[head]];
        head' := le;
        Unlink(le, k);
      } else {
        PassOver(n, order0, size0, order, size, base, pages, i, lo, hi, le);
        last' := le;
      }
    }
  }

  /** The block has become the last run, `lo..hi`; the runs outside it are as they were, in their order. */
  ghost predicate MergedInto(order0: seq<nat>, size0: seq<nat>, order: seq<nat>, size: seq<nat>, base: nat, pages: nat, lo: nat, hi: nat) {
    && lo <= base && base + pages <= hi && At(size, lo) == hi - lo
    && order == Outsiders(order0, lo, hi) + [lo] && forall x :: x in Outsiders(order0, lo, hi) ==> At(size, x) == At(size0, x)
  }

  lemma PassMerged(n: nat, order0: seq<nat>, size0: seq<nat>, order: seq<nat>, size: seq<nat>, base: nat, pages: nat, i: nat, lo: nat, hi: nat)
    requires Pass(n, order0, size0, order, size, base, pages, i, lo, hi) && order == Outsiders(order0, lo, hi)
    ensures MergedInto(order0, size0, order + [lo], size, base, pages, lo, hi)
  {
  }

  /** The traversal stands at the gap at `k`: `last` is before it and `le` after it. */
  ghost predicate Stands(n: nat, order: seq<nat>, k: nat, le: nat, last: nat) {
    k <= |order| && le == After(n, order, k) && last == Before(n, order, k)
  }

  lemma StandsDropped(n: nat, order: seq<nat>, k: nat)
    requires k < |order|
    ensures var order' := order[..k] + order[k + 1..];
      |order'| + 1 == |order| && After(n, order', k) == After(n, order, k + 1) && Before(n, order', k) == Before(n, order, k)
  {
  }

  lemma AddedSpaced(n: nat, order: seq<nat>, size: seq<nat>, base: nat, pages: nat)
    requires Apart(n, order, size) && Outside(order, size, base, pages) && 0 < pages && base + pages <= n
    ensures |size| == n && (Spaced(order + [base], size[base := pages]) <==> Spaced(order, size) && Untouched(order, size, base, base + pages))
  {
    var order', size' := order + [base], size[base := pages];
    assert base in order' && At(size', base) == pages && base !in order;
    assert forall x :: x in order ==> x in order' && At(size', x) == At(size, x);
  }

  /** Two ranges of the boot memory map that touch stay two runs. */
  lemma TouchingRanges()
    ensures Apart(4, [0], [2, 0, 0, 0]) && Spaced([0], [2, 0, 0, 0]) && Outside([0], [2, 0, 0, 0], 2, 2)
    ensures Apart(4, [0, 2], [2, 0, 2, 0]) && !Spaced([0, 2], [2, 0, 2, 0])
  {
    assert 0 in [0, 2] && 2 in [0, 2] && 0 + At([2, 0, 2, 0], 0) == 2;
  }

  lemma FirstLink(n: nat, next: seq<nat>, prev: seq<nat>, order: seq<nat>)
    requires Ring(n, next, prev, order)
    ensures |next| == n + 1 && next[n] == After(n, order, 0)
  {
    LinkAt(n, next, prev, order, 0);
  }

  lemma RingStep(n: nat, next: seq<nat>, prev: seq<nat>, order: seq<nat>, k: nat)
    requires Ring(n, next, prev, order) && k <= |order| && After(n, order, k) != n
    ensures k < |order| && order[k] < n && |next| == n + 1 && next[order[k]] == After(n, order, k + 1)
  {
    LinkAt(n, next, prev, order, k);
    LinkAt(n, next, prev, order, k + 1);
  }

  lemma RingBound(n: nat, next: seq<nat>, prev: seq<nat>, order: seq<nat>)
    requires Ring(n, next, prev, order)
    ensures NoRepeat(order) && n !in order && |prev| == n + 1
  {
  }

  // ---- One pass over the list ----

  /** After `i` of the old nodes: the block is `lo..hi` by now, and the nodes that were not merged into it are kept. */
  ghost predicate Pass(n: nat, order0: seq<nat>, size0: seq<nat>, order: seq<nat>, size: seq<nat>, base: nat, pages: nat,
                       i: nat, lo: nat, hi: nat)
  {
    && i <= |order0| && Apart(n, order0, size0) && NoRepeat(order0) && 0 < pages && lo <= base && base + pages <= hi <= n
    && Merging(order0, size0, order, base, pages, i, lo, hi)
    && |size| == n && size[lo] == hi - lo && forall x :: x in order ==> At(size, x) == At(size0, x)
  }

  ghost predicate Merging(order0: seq<nat>, size0: seq<nat>, order: seq<nat>, base: nat, pages: nat, i: nat, lo: nat, hi: nat)
    requires i <= |order0| && lo <= hi
  {
    && order == Outsiders(order0[..i], lo, hi) + order0[i..]
    && Outside(order, size0, lo, hi - lo) && SamePages(order0, order, size0, base, pages, lo, hi)
    && Total(order, size0) + (hi - lo) == Total(order0, size0) + pages
    && (Spaced(order0, size0) ==> Untouched(Outsiders(order0[..i], lo, hi), size0, lo, hi))
  }

  lemma PassStart(n: nat, order: seq<nat>, size: seq<nat>, base: nat, pages: nat)
    requires Apart(n, order, size) && NoRepeat(order) && Outside(order, size, base, pages) && 0 < pages && base + pages <= n
    ensures |size| == n && Pass(n, order, size, order, size[base := pages], base, pages, 0, base, base + pages)
    ensures Stands(n, order, |Outsiders(order[..0], base, base + pages)|, After(n, order, 0), n)
  {
    assert order[..0] == [] && order[0..] == order;
  }

  /** The next node is the next old node. */
  lemma PassNode(n: nat, order0: seq<nat>, size0: seq<nat>, order: seq<nat>, size: seq<nat>, base: nat, pages: nat,
                 i: nat, lo: nat, hi: nat, le: nat, last: nat)
    requires Pass(n, order0, size0, order, size, base, pages, i, lo, hi)
    requires Stands(n, order, |Outsiders(order0[..i], lo, hi)|, le, last) && le != n
    ensures i < |order0| && le == order0[i] && le < n && |size| == n && lo < n && size[le] == At(size0, le)
    ensures order0[..i + 1] == order0[..i] + [le] && lo + size[lo] == hi
  {
    hide Outsiders, Total, SamePages, Untouched, Outside;
    assert order[|Outsiders(order0[..i], lo, hi)|] == order0[i];
    assert le in order0 && le in order;
  }

  /** A node that touches the block on neither side is kept. */
  lemma PassOver(n: nat, order0: seq<nat>, size0: seq<nat>, order: seq<nat>, size: seq<nat>, base: nat, pages: nat,
                 i: nat, lo: nat, hi: nat, le: nat)
    requires Pass(n, order0, size0, order, size, base, pages, i, lo, hi) && i < |order0| && le == order0[i]
    requires order0[..i + 1] == order0[..i] + [le] && hi != le && le + At(size0, le) != lo
    ensures Pass(n, order0, size0, order, size, base, pages, i + 1, lo, hi)
    ensures Outsiders(order0[..i + 1], lo, hi) == Outsiders(order0[..i], lo, hi) + [le]
  {
    hide Total, SamePages;
    var kept := Outsiders(order0[..i], lo, hi);
    assert order0[..i + 1][..i] == order0[..i];
    assert order[|kept|] == le && le in order && le in order0;
    assert kept + order0[i..] == kept + [le] + order0[i + 1..];
  }

  /** The run of `le` fills `lo'..hi'` up to `lo..hi`. */
  ghost predicate Joins(size0: seq<nat>, le: nat, lo: nat, hi: nat, lo': nat, hi': nat) {
    (hi == le && lo' == lo && hi' == hi + At(size0, le)) || (le + At(size0, le) == lo && lo' == le && hi' == hi)
  }

  /** A node that touches the block leaves the list; the other nodes stay outside the block. */
  lemma JoinedNodes(n: nat, order0: seq<nat>, size0: seq<nat>, i: nat, lo: nat, hi: nat, le: nat, lo': nat, hi': nat)
    requires Apart(n, order0, size0) && NoRepeat(order0) && i < |order0| && le == order0[i] && order0[..i + 1] == order0[..i] + [le]
    requires lo < hi && Joins(size0, le, lo, hi, lo', hi')
    ensures Outsiders(order0[..i + 1], lo', hi') == Outsiders(order0[..i], lo, hi)
    ensures le !in order0[..i] && le !in order0[i + 1..]
  {
    var seen := order0[..i];
    assert le in order0;
    forall x | x in seen
      ensures x != le && (lo <= x < hi <==> lo' <= x < hi')
    {
      var j :| 0 <= j < i && seen[j] == x;
      assert order0[j] == x && x in order0;
      assert Clear(size0, x, le);
    }
    OutsidersSame(seen, lo, hi, lo', hi');
    assert order0[..i + 1][..i] == seen;
  }

  lemma JoinedRuns(n: nat, order0: seq<nat>, size0: seq<nat>, kept: seq<nat>, rest: seq<nat>, le: nat, lo: nat, hi: nat, lo': nat, hi': nat)
    requires Apart(n, order0, size0) && (forall x :: x in kept + [le] + rest ==> x in order0) && lo < hi
    requires Joins(size0, le, lo, hi, lo', hi') && le !in kept && le !in rest && Outside(kept + [le] + rest, size0, lo, hi - lo)
    ensures lo' <= lo && hi <= hi' <= (if hi > n then hi else n) && Outside(kept + rest, size0, lo', hi' - lo')
    ensures Total(kept + rest, size0) + (hi' - lo') == Total(kept + [le] + rest, size0) + (hi - lo)
    ensures forall p: nat :: Free(kept + rest, size0, p) || lo' <= p < hi' <==> Free(kept + [le] + rest, size0, p) || lo <= p < hi
    ensures Spaced(order0, size0) && Untouched(kept, size0, lo, hi) ==> Untouched(kept, size0, lo', hi')
  {
    var all, less := kept + [le] + rest, kept + rest;
    assert le in all && le in order0;
    forall x | x in less
      ensures x in all && x in order0 && Clear(size0, x, le)
    {
    }
    TotalThree(kept, [le], rest, size0);
    TotalJoin(kept, rest, size0);
    TotalOne(le, size0);
    forall p: nat
      ensures Free(less, size0, p) || lo' <= p < hi' <==> Free(all, size0, p) || lo <= p < hi
    {
      if Free(less, size0, p) {
        var x :| x in less && InRun(size0, x, p);
        assert x in all;
      }
      if InRun(size0, le, p) {
        assert Free(all, size0, p);
      }
      if Free(all, size0, p) {
        var x :| x in all && InRun(size0, x, p);
        assert x == le || x in less;
      }
    }
    if Spaced(order0, size0) && Untouched(kept, size0, lo, hi) {
      forall x | x in kept
        ensures x + At(size0, x) != lo' && hi' != x
      {
        assert x in less && x + At(size0, x) != le && le + At(size0, le) != x;
      }
    }
  }

  /** The run of `le` joins the block. */
  lemma PassJoin(n: nat, order0: seq<nat>, size0: seq<nat>, order: seq<nat>, size: seq<nat>, size': seq<nat>, base: nat, pages: nat,
                 i: nat, lo: nat, hi: nat, le: nat, lo': nat, hi': nat)
    requires Pass(n, order0, size0, order, size, base, pages, i, lo, hi) && i < |order0| && le == order0[i] && le < n
    requires order0[..i + 1] == order0[..i] + [le] && Joins(size0, le, lo, hi, lo', hi')
    requires lo' < n && size' == size[lo' := hi' - lo']
    ensures var k := |Outsiders(order0[..i], lo, hi)|;
      && k < |order| && Outsiders(order0[..i + 1], lo', hi') == Outsiders(order0[..i], lo, hi)
      && Pass(n, order0, size0, order[..k] + order[k + 1..], size', base, pages, i + 1, lo', hi')
  {
    hide Total, Free, Outsiders, Untouched;
    var kept, rest := Outsiders(order0[..i], lo, hi), order0[i + 1..];
    JoinedNodes(n, order0, size0, i, lo, hi, le, lo', hi');
    OutsidersAre(order0[..i], lo, hi);
    assert order0[i..] == [le] + rest && order == kept + [le] + rest;
    JoinedRuns(n, order0, size0, kept, rest, le, lo, hi, lo', hi');
    assert order[..|kept|] + order[|kept| + 1..] == kept + rest;
    forall x | x in kept + rest
      ensures x in order && x != lo'
    {
    }
  }

  lemma PassEnd(n: nat, order0: seq<nat>, size0: seq<nat>, order: seq<nat>, size: seq<nat>, base: nat, pages: nat,
                i: nat, lo: nat, hi: nat, last: nat)
    requires Pass(n, order0, size0, order, size, base, pages, i, lo, hi) && n !in order
    requires Stands(n, order, |Outsiders(order0[..i], lo, hi)|, n, last)
    ensures last == Before(n, order, |order|)
    ensures order == Outsiders(order0, lo, hi) && |Outsiders(order0[..i], lo, hi)| == |order|
    ensures Apart(n, order + [lo], size) && lo !in order && lo < n && Total(order + [lo], size) == Total(order0, size0) + pages
    ensures forall p: nat :: Free(order + [lo], size, p) <==> Free(order0, size0, p) || base <= p < base + pages
    ensures Spaced(order0, size0) ==> Spaced(order + [lo], size)
  {
    hide Outsiders, Total, Free;
    assert forall j :: 0 <= j < |order| ==> order[j] in order;
    assert order0[..i] == order0;
    OutsidersAre(order0, lo, hi);
    TotalFrame(order, size0, size);
    TotalJoin(order, [lo], size);
    TotalOne(lo, size);
    EndApart(n, order0, order, size0, size, lo, hi);
    forall p: nat
      ensures Free(order + [lo], size, p) <==> Free(order, size0, p) || lo <= p < hi
    {
      EndFree(n, order, size0, size, lo, hi, p);
    }
  }

  lemma EndApart(n: nat, order0: seq<nat>, order: seq<nat>, size0: seq<nat>, size: seq<nat>, lo: nat, hi: nat)
    requires Apart(n, order0, size0) && (forall x :: x in order ==> x in order0 && At(size, x) == At(size0, x)) && lo < hi <= n
    requires Outside(order, size0, lo, hi - lo) && |size| == n && size[lo] == hi - lo
    ensures Apart(n, order + [lo], size) && lo !in order
    ensures Spaced(order0, size0) && Untouched(order, size0, lo, hi) ==> Spaced(order + [lo], size)
  {
    forall x, y | x in order + [lo] && y in order + [lo] && x != y
      ensures Clear(size, x, y)
    {
      if x in order && y in order {
        assert Clear(size0, x, y);
      }
    }
  }

  lemma EndFree(n: nat, order: seq<nat>, size0: seq<nat>, size: seq<nat>, lo: nat, hi: nat, p: nat)
    requires |size| == |size0| == n && lo < n && size[lo] == hi - lo && lo !in order
    requires forall x :: x in order ==> x < n && At(size, x) == At(size0, x)
    ensures Free(order + [lo], size, p) <==> Free(order, size0, p) || lo <= p < hi
  {
    if Free(order + [lo], size, p) {
      var x :| x in order + [lo] && InRun(size, x, p);
      assert x != lo ==> InRun(size0, x, p);
    }
    if Free(order, size0, p) {
      var x :| x in order && InRun(size0, x, p);
      assert x in order + [lo] && InRun(size, x, p);
    } else if lo <= p < hi {
      assert lo in order + [lo] && InRun(size, lo, p);
    }
  }

  lemma RingNodes(n: nat, next: seq<nat>, prev: seq<nat>, order: seq<nat>)
    requires Ring(n, next, prev, order)
    ensures NoRepeat(order)
  {
  }

  lemma LastLink(n: nat, next: seq<nat>, prev: seq<nat>, order: seq<nat>)
    requires Ring(n, next, prev, order)
    ensures |prev| == n + 1 && prev[n] == Before(n, order, |order|)
  {
    LinkAt(n, next, prev, order, |order|);
  }

  lemma NoneFits(order: seq<nat>, size: seq<nat>, pages: nat)
    requires pages > Total(order, size)
    ensures forall x :: x in order ==> At(size, x) < pages
  {
    forall x | x in order
      ensures At(size, x) < pages
    {
      TotalAtLeast(order, size, x);
    }
  }
}
