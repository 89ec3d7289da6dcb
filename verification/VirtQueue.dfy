/** The VirtIO split queue: driver and device share rings whose 16-bit indices wrap around. */
module VirtQueue {
  import opened Errors
  import opened Sequences

  // ---- Arithmetic of wrapping indices ----

  lemma DivModUnique(n: nat, k: nat, q: nat, r: nat)
    requires k > 0 && n == k * q + r && r < k
    ensures n % k == r && n / k == q
  {
    var p, s := n / k, n % k;
    assert n == k * p + s;
    assert k * (q - p) == k * q - k * p && k * (p - q) == k * p - k * q;
    if q > p {
      AtLeastOne(k, q - p);
    } else if p > q {
      AtLeastOne(k, p - q);
    }
  }

  lemma AtLeastOne(k: nat, d: nat)
    requires d >= 1
    ensures k * d >= k
  {
  }

  /** A ring whose size divides 65536 does not notice the wrap of a 16-bit index. */
  lemma SlotOfWrapped(x: nat, k: nat)
    requires Power(k)
    ensures x % 0x1_0000 % k == x % k
  {
    PowerDivides(k);
    ModOfMod(x, k, 0x1_0000 / k);
  }

  lemma ModOfMod(x: nat, k: nat, m: nat)
    requires k > 0 && m > 0 && k * m == 0x1_0000
    ensures x % 0x1_0000 % k == x % k
  {
    var q, r := x / 0x1_0000, x % 0x1_0000;
    var p, s := r / k, r % k;
    assert r == k * p + s;
    assert x == k * m * q + (k * p + s);
    assert k * m * q == k * (m * q);
    assert x == k * (m * q + p) + s;
    DivModUnique(x, k, m * q + p, s);
  }

  /** The queue sizes that `allocate` accepts: powers of two up to 32768. */
  predicate Power(k: nat) {
    k in {1, 2, 4, 8, 16, 32, 64, 128, 256, 512, 1024, 2048, 4096, 8192, 16384, 32768}
  }

  lemma PowerDivides(k: nat)
    requires Power(k)
    ensures 0 < k <= 32768 && k * (0x1_0000 / k) == 0x1_0000
  {
  }

  lemma OneBit(b: bv16)
    ensures b != 0 && b & (b - 1) == 0 <==>
      || b == 1 || b == 2 || b == 4 || b == 8 || b == 16 || b == 32 || b == 64 || b == 128
      || b == 256 || b == 512 || b == 1024 || b == 2048 || b == 4096 || b == 8192 || b == 16384 || b == 32768
  {
  }

  /** The test on the bits of a 16-bit size accepts the powers of two. */
  lemma PowerBits(b: bv16)
    ensures b != 0 && b <= 32768 && b & (b - 1) == 0 <==> Power(b as nat)
  {
    OneBit(b);
    assert (b as nat) as bv16 == b;
  }

  /** Positions less than `k` apart have different slots in a ring of size `k`. */
  lemma SlotsDiffer(i: nat, j: nat, k: nat)
    requires k > 0 && i < j < i + k
    ensures i % k != j % k
  {
    var p, q := i / k, j / k;
    assert i == k * p + i % k && j == k * q + j % k;
    if i % k == j % k {
      assert j - i == k * q - k * p == k * (q - p);
      if q > p {
        AtLeastOne(k, q - p);
      } else {
        AtMostZero(k, q - p);
      }
    }
  }

  lemma AtMostZero(k: nat, d: int)
    requires d <= 0
    ensures k * d <= 0
  {
  }

  /** The 16-bit difference of two counters less than 65536 apart is their difference. */
  lemma WrappedDifference(u: nat, l: nat)
    requires l <= u < l + 0x1_0000
    ensures (u % 0x1_0000 - l % 0x1_0000 + 0x1_0000) % 0x1_0000 == u - l
  {
  }

  /** A counter as a 16-bit index, the index after it, and the slot it stands for. */
  function Wrapped(x: nat): nat {
    x % 0x1_0000
  }

  function NextIndex(i: nat): nat {
    (i + 1) % 0x1_0000
  }

  function SlotAt(x: nat, k: nat): (s: nat)
    requires k > 0
    ensures s < k
  {
    x % k
  }

  /** Entries between two indices. */
  function Pending(index: nat, last: nat): nat
    requires index < 0x1_0000 && last < 0x1_0000
  {
    (index - last + 0x1_0000) % 0x1_0000
  }

  lemma WrappedNext(x: nat)
    ensures Wrapped(x) < 0x1_0000 && NextIndex(Wrapped(x)) == Wrapped(x + 1)
  {
  }

  lemma WrappedSlot(x: nat, k: nat)
    requires Power(k)
    ensures k > 0 && SlotAt(Wrapped(x), k) == SlotAt(x, k)
  {
    PowerDivides(k);
    SlotOfWrapped(x, k);
  }

  lemma PendingIs(u: nat, l: nat)
    requires l <= u < l + 0x1_0000
    ensures Wrapped(u) < 0x1_0000 && Wrapped(l) < 0x1_0000 && Pending(Wrapped(u), Wrapped(l)) == u - l
  {
    WrappedDifference(u, l);
  }

  // ---- Ownership ----

  ghost predicate Below(s: seq<nat>, k: nat) {
    forall i :: 0 <= i < |s| ==> s[i] < k
  }

  /** There are no more than `k` different ids below `k`. */
  lemma {:induction false} Pigeons(s: seq<nat>, k: nat)
    requires NoRepeat(s) && Below(s, k)
    ensures |s| <= k
    decreases k
  {
    assert s == [] || s[0] < k;
    if k > 0 {
      if k - 1 in s {
        var i :| 0 <= i < |s| && s[i] == k - 1;
        Pigeons(s[..i] + s[i + 1..], k - 1);
      } else {
        Pigeons(s, k - 1);
      }
    }
  }

  datatype Completion = Completion(id: nat, length: nat)

  function Ids(s: seq<Completion>): (r: seq<nat>)
    ensures |r| == |s| && forall i :: 0 <= i < |s| ==> r[i] == s[i].id
  {
    if s == [] then [] else Ids(s[..|s| - 1]) + [s[|s| - 1].id]
  }

  /** Buffers the device has a claim on: made available, in its hands, or completed and not popped. */
  ghost function Outstanding(waiting: seq<nat>, inflight: seq<nat>, ready: seq<Completion>): multiset<nat> {
    multiset(waiting) + multiset(inflight) + multiset(Ids(ready))
  }

  /** Each buffer is claimed in at most one way, once. */
  ghost predicate Claims(m: multiset<nat>, size: nat) {
    forall x :: m[x] <= 1 && (m[x] == 1 ==> x < size)
  }

  lemma TwiceIn(s: seq<nat>, i: nat, j: nat)
    requires i < j < |s|
    ensures s[i] == s[j] ==> multiset(s)[s[i]] >= 2
  {
    assert s == s[..i] + [s[i]] + s[i + 1..j] + [s[j]] + s[j + 1..];
  }

  lemma Room(waiting: seq<nat>, inflight: seq<nat>, ready: seq<Completion>, size: nat)
    requires Claims(Outstanding(waiting, inflight, ready), size)
    ensures |waiting| + |inflight| + |ready| <= size
  {
    var s := waiting + inflight + Ids(ready);
    assert multiset(s) == Outstanding(waiting, inflight, ready);
    forall i, j | 0 <= i < j < |s|
      ensures s[i] != s[j]
    {
      TwiceIn(s, i, j);
    }
    forall i | 0 <= i < |s|
      ensures s[i] < size
    {
      assert s[i] in multiset(s);
    }
    Pigeons(s, size);
  }

  /** Making a free buffer available claims it, and there is room for it. */
  lemma OnSubmit(waiting: seq<nat>, inflight: seq<nat>, ready: seq<Completion>, size: nat, id: nat)
    requires Claims(Outstanding(waiting, inflight, ready), size) && id < size && id !in Outstanding(waiting, inflight, ready)
    ensures Outstanding(waiting + [id], inflight, ready) == Outstanding(waiting, inflight, ready) + multiset{id}
    ensures Claims(Outstanding(waiting + [id], inflight, ready), size) && |waiting| + |inflight| + |ready| < size
  {
    var m, m' := Outstanding(waiting, inflight, ready), Outstanding(waiting + [id], inflight, ready);
    assert m' == m + multiset{id};
    forall x
      ensures m'[x] <= 1 && (m'[x] == 1 ==> x < size)
    {
      assert m'[x] == m[x] + (if x == id then 1 else 0) && m[x] <= 1 && (m[x] == 1 ==> x < size);
    }
    Room(waiting + [id], inflight, ready, size);
  }

  lemma OnTake(waiting: seq<nat>, inflight: seq<nat>, ready: seq<Completion>)
    requires waiting != []
    ensures Outstanding(waiting[1..], inflight + [waiting[0]], ready) == Outstanding(waiting, inflight, ready)
  {
    assert waiting == [waiting[0]] + waiting[1..];
  }

  lemma OnComplete(waiting: seq<nat>, inflight: seq<nat>, ready: seq<Completion>, k: nat, length: nat)
    requires k < |inflight|
    ensures Outstanding(waiting, inflight[..k] + inflight[k + 1..], ready + [Completion(inflight[k], length)]) == Outstanding(waiting, inflight, ready)
  {
    var c := Completion(inflight[k], length);
    assert (ready + [c])[..|ready|] == ready;
    assert inflight == inflight[..k] + [inflight[k]] + inflight[k + 1..];
  }

  /** The completion at the head is of a claimed buffer, which is the driver's once popped. */
  lemma OnPop(waiting: seq<nat>, inflight: seq<nat>, ready: seq<Completion>, size: nat)
    requires Claims(Outstanding(waiting, inflight, ready), size) && ready != []
    ensures ready[0].id < size && Outstanding(waiting, inflight, ready) == Outstanding(waiting, inflight, ready[1..]) + multiset{ready[0].id}
    ensures Claims(Outstanding(waiting, inflight, ready[1..]), size) && ready[0].id !in Outstanding(waiting, inflight, ready[1..])
  {
    var m, id := Outstanding(waiting, inflight, ready[1..]), ready[0].id;
    assert Ids(ready) == [id] + Ids(ready[1..]);
    assert Outstanding(waiting, inflight, ready) == m + multiset{id};
    assert forall x :: m[x] <= (m + multiset{id})[x];
    assert (m + multiset{id})[id] == m[id] + 1;
  }

  // ---- The rings ----

  /** The ring holds `contents` from position `first` on. */
  ghost predicate RingHolds<T>(ring: seq<T>, first: nat, contents: seq<T>) {
    |ring| > 0 && forall j :: 0 <= j < |contents| ==> ring[SlotAt(first + j, |ring|)] == contents[j]
  }

  /** Writing behind the last entry does not touch an entry that is still wanted. */
  lemma RingAppend<T>(ring: seq<T>, first: nat, contents: seq<T>, x: T)
    requires RingHolds(ring, first, contents) && |contents| < |ring|
    ensures RingHolds(ring[SlotAt(first + |contents|, |ring|) := x], first, contents + [x])
  {
    var k, n := |ring|, |contents|;
    forall j | 0 <= j < n + 1
      ensures ring[SlotAt(first + n, k) := x][SlotAt(first + j, k)] == (contents + [x])[j]
    {
      if j < n {
        SlotsDiffer(first + j, first + n, k);
      }
    }
  }

  lemma RingHead<T>(ring: seq<T>, first: nat, contents: seq<T>)
    requires RingHolds(ring, first, contents) && contents != []
    ensures |ring| > 0 && ring[SlotAt(first, |ring|)] == contents[0] && RingHolds(ring, first + 1, contents[1..])
  {
    var rest := contents[1..];
    assert ring[SlotAt(first + 0, |ring|)] == contents[0];
    forall j | 0 <= j < |rest|
      ensures ring[SlotAt(first + 1 + j, |ring|)] == rest[j]
    {
      assert ring[SlotAt(first + (j + 1), |ring|)] == contents[j + 1];
    }
  }

  class SplitQueue {
    const size: nat
    var available: seq<nat>           // the available ring
    var availableIndex: nat           // 16 bits
    var used: seq<Completion>         // the used ring
    var usedIndex: nat                // 16 bits
    var lastUsed: nat                 // 16 bits, the driver's own
    var deviceIndex: nat              // 16 bits, the device's own
    var inflight: seq<nat>            // buffers the device has taken and not completed

    ghost var taken: nat              // buffers the device has ever taken
    ghost var waiting: seq<nat>       // made available and not taken, in order
    ghost var popped: nat             // completions the driver has ever popped
    ghost var ready: seq<Completion>  // completed and not popped, in the device's order
    ghost var claimed: multiset<nat>  // the device's buffers; the driver owns the others

    ghost predicate Valid()
      reads this
    {
      && Power(size) && 0 < size <= 32768 && |available| == size && |used| == size
      && claimed == Outstanding(waiting, inflight, ready) && Claims(claimed, size)
      && availableIndex == Wrapped(taken + |waiting|) && deviceIndex == Wrapped(taken)
      && usedIndex == Wrapped(popped + |ready|) && lastUsed == Wrapped(popped)
      && RingHolds(available, taken, waiting) && RingHolds(used, popped, ready)
    }

    /** A zeroed queue; the driver owns every buffer. */
    constructor (size: nat)
      requires Power(size)
      ensures Valid() && this.size == size && claimed == multiset{} && waiting == [] && inflight == [] && ready == []
    {
      this.size := size;
      available, availableIndex := seq(size, i => 0), 0;
      used, usedIndex := seq(size, i => Completion(0, 0)), 0;
      lastUsed, deviceIndex, inflight := 0, 0, [];
      taken, waiting, popped, ready, claimed := 0, [], 0, [], multiset{};
    }

    /** Makes buffer `id` available to the device. */
    method Submit(id: nat) returns (e: Error)
      requires Valid() && id !in claimed
      modifies `available, `availableIndex, `waiting, `claimed
      ensures Valid() && e == (if id < size then NoError else Invalid)
      ensures waiting == old(waiting) + (if id < size then [id] else [])
      ensures claimed == old(claimed) + (if id < size then multiset{id} else multiset{})
    {
      hide Power, RingHolds, Claims, Wrapped, SlotAt, NextIndex, Pending, Outstanding;
      if id >= size {
        return Invalid;
      }
      OnSubmit(waiting, inflight, ready, size, id);
      RingAppend(available, taken, waiting, id);
      WrappedSlot(taken + |waiting|, size);
      WrappedNext(taken + |waiting|);
      available := available[SlotAt(availableIndex, size) := id];
      availableIndex := NextIndex(availableIndex);
      waiting := waiting + [id];
      claimed := claimed + multiset{id};
      return NoError;
    }

    /** The oldest completion not yet popped, if any. */
    method PopUsed() returns (r: Result<Completion>)
      requires Valid()
      modifies `lastUsed, `popped, `ready, `claimed
      ensures Valid()
      ensures r.Failure? ==> r.error == Errors.NotFound && old(ready) == [] && ready == [] && claimed == old(claimed)
      ensures r.Success? ==> old(ready) == [r.value] + ready && r.value.id < size
      ensures r.Success? ==> old(claimed) == claimed + multiset{r.value.id} && r.value.id !in claimed
    {
      hide Power, RingHolds, Claims, Wrapped, SlotAt, NextIndex, Pending, Outstanding;
      Room(waiting, inflight, ready, size);
      PendingIs(popped + |ready|, popped);
      var pending := Pending(usedIndex, lastUsed);
      if pending == 0 {
        return Failure(Errors.NotFound);
      }
      if pending > size {
        return Failure(Invalid);
      }
      WrappedSlot(popped, size);
      WrappedNext(popped);
      RingHead(used, popped, ready);
      OnPop(waiting, inflight, ready, size);
      var entry := used[SlotAt(lastUsed, size)];
      if entry.id >= size {
        return Failure(Invalid);
      }
      lastUsed := NextIndex(lastUsed);
      popped := popped + 1;
      ready := ready[1..];
      claimed := Outstanding(waiting, inflight, ready);
      return Success(entry);
    }

    // -- A device that follows the protocol --

    /** Takes the oldest buffer made available. */
    method DeviceTake() returns (id: nat)
      requires Valid() && waiting != []
      modifies `taken, `inflight, `deviceIndex, `waiting
      ensures Valid() && old(waiting) == [id] + waiting && inflight == old(inflight) + [id]
    {
      hide Power, RingHolds, Claims, Wrapped, SlotAt, NextIndex, Pending, Outstanding;
      WrappedSlot(taken, size);
      WrappedNext(taken);
      RingHead(available, taken, waiting);
      OnTake(waiting, inflight, ready);
      id := available[SlotAt(deviceIndex, size)];
      deviceIndex := NextIndex(deviceIndex);
      taken := taken + 1;
      waiting := waiting[1..];
      inflight := inflight + [id];
    }

    /** Completes one of the buffers it holds. */
    method DeviceComplete(k: nat, length: nat)
      requires Valid() && k < |inflight|
      modifies `used, `usedIndex, `ready, `inflight
      ensures Valid() && ready == old(ready) + [Completion(old(inflight)[k], length)]
      ensures inflight == old(inflight)[..k] + old(inflight)[k + 1..]
    {
      hide Power, RingHolds, Claims, Wrapped, SlotAt, NextIndex, Pending, Outstanding;
      var c := Completion(inflight[k], length);
      Room(waiting, inflight, ready, size);
      RingAppend(used, popped, ready, c);
      WrappedSlot(popped + |ready|, size);
      WrappedNext(popped + |ready|);
      OnComplete(waiting, inflight, ready, k, length);
      used := used[SlotAt(usedIndex, size) := c];
      usedIndex := NextIndex(usedIndex);
      ready := ready + [c];
      inflight := inflight[..k] + inflight[k + 1..];
    }
  }

  // ---- The keyboard driver's side ----

  const EVENT_BYTES := 8

  /** The first `n` buffers. */
  ghost function FirstBuffers(n: nat): multiset<nat> {
    if n == 0 then multiset{} else FirstBuffers(n - 1) + multiset{n - 1}
  }

  lemma {:induction false} FirstBuffersAre(n: nat)
    ensures forall x :: FirstBuffers(n)[x] == if 0 <= x < n then 1 else 0
  {
    if n > 0 {
      FirstBuffersAre(n - 1);
    }
  }

  lemma FirstBuffersNext(n: nat)
    ensures FirstBuffers(0) == multiset{} && FirstBuffers(n + 1) == FirstBuffers(n) + multiset{n}
  {
  }

  /** A new queue, or an error when the size is not a power of two or memory runs out. */
  method Allocate(size: bv16, haveMemory: bool) returns (r: Result<SplitQueue>)
    ensures r == Failure(Invalid) <==> !Power(size as nat)
    ensures r.Failure? && Power(size as nat) ==> r.error == NoMem && !haveMemory
    ensures r.Success? ==> fresh(r.value) && r.value.Valid() && r.value.size == size as nat && r.value.claimed == multiset{}
  {
    PowerBits(size);
    if !(size != 0 && size <= 32768 && size & (size - 1) == 0) {
      return Failure(Invalid);
    }
    if !haveMemory {
      return Failure(NoMem);
    }
    var q := new SplitQueue(size as nat);
    r := Success(q);
  }

  /** Hands every buffer of an empty queue to the device. */
  method Prepare(q: SplitQueue)
    requires q.Valid() && q.claimed == multiset{}
    modifies q
    ensures q.Valid() && forall x :: q.claimed[x] == if 0 <= x < q.size then 1 else 0
  {
    hide SplitQueue.Valid, FirstBuffers;
    FirstBuffersNext(0);
    for i := 0 to q.size
      invariant q.Valid() && q.claimed == FirstBuffers(i)
    {
      FirstBuffersAre(i);
      FirstBuffersNext(i);
      var e := q.Submit(i);
    }
    FirstBuffersAre(q.size);
  }

  /** Pops completions until there are none, handing each buffer back to the device.  It stops, and
      the device is given up, at a completion of the wrong length. */
  method Interrupt(q: SplitQueue) returns (events: seq<Completion>, ok: bool)
    requires q.Valid()
    modifies q
    ensures q.Valid()
    ensures ok ==> events == old(q.ready) && q.claimed == old(q.claimed) && q.ready == []
    ensures !ok ==> |events| < |old(q.ready)| && events == old(q.ready)[..|events|] && old(q.ready)[|events|].length != 8
    ensures forall i :: 0 <= i < |events| ==> events[i].length == 8
  {
    hide SplitQueue.Valid;
    events, ok := [], true;
    while true
      invariant q.Valid() && q.claimed == old(q.claimed) && old(q.ready) == events + q.ready
      invariant forall i :: 0 <= i < |events| ==> events[i].length == EVENT_BYTES
      decreases |q.ready|
    {
      var c := q.PopUsed();
      if c.Failure? {
        break;
      }
      if c.value.length != EVENT_BYTES {
        ok := false;
        break;
      }
      events := events + [c.value];
      var e := q.Submit(c.value.id);
    }
  }
}
