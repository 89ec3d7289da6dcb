/** Swapping user pages to a dedicated device: slots, page-table entries and the disk. */
module Swap {
  import opened Errors
  import opened PageTables
  import opened SwapEntries
  import opened Sequences

  // ---- The slot bitmap ----

  function Mask(k: nat): bv8
    requires k < 8
  {
    if k == 0 then 1 else if k == 1 then 2 else if k == 2 then 4 else if k == 3 then 8
    else if k == 4 then 16 else if k == 5 then 32 else if k == 6 then 64 else 128
  }

  function Bytes(limit: nat): nat {
    (limit + 7) / 8
  }

  /** Slot k of a byte is its bit k, and the bitmap has a byte for every eight slots or part of eight. */
  lemma BitmapLayout(k: nat, limit: nat)
    requires k < 8
    ensures Mask(k) == (1 as bv8) << k && limit <= 8 * Bytes(limit) < limit + 8
  {
  }

  predicate Bit(b: bv8, k: nat)
    requires k < 8
  {
    b & Mask(k) != 0
  }

  function WithBit(b: bv8, k: nat, value: bool): bv8
    requires k < 8
  {
    if value then b | Mask(k) else b & !Mask(k)
  }

  predicate Occupied(bits: seq<bv8>, slot: nat)
    requires slot < 8 * |bits|
  {
    Bit(bits[slot / 8], slot % 8)
  }

  function SetOccupied(bits: seq<bv8>, slot: nat, value: bool): (r: seq<bv8>)
    requires slot < 8 * |bits|
    ensures |r| == |bits|
  {
    bits[slot / 8 := WithBit(bits[slot / 8], slot % 8, value)]
  }

  lemma BitSet(b: bv8, j: nat, k: nat, value: bool)
    requires j < 8 && k < 8
    ensures Bit(WithBit(b, k, value), j) == if j == k then value else Bit(b, j)
  {
  }

  /** Setting a slot changes that slot and no other. */
  lemma SetOne(bits: seq<bv8>, slot: nat, value: bool, other: nat)
    requires slot < 8 * |bits| && other < 8 * |bits|
    ensures Occupied(SetOccupied(bits, slot, value), other) == if other == slot then value else Occupied(bits, other)
  {
    hide Bit, WithBit;
    if other / 8 == slot / 8 {
      BitSet(bits[slot / 8], other % 8, slot % 8, value);
      assert other % 8 == slot % 8 <==> other == slot;
    }
  }

  // ---- Slots on the disk ----

  /** Slots a device of `blocks` blocks offers, slot 0 included though it is never used. */
  function SlotLimit(blocks: nat): nat {
    if blocks / 8 + 1 < MAX_SLOTS then blocks / 8 + 1 else MAX_SLOTS
  }

  function StartLba(slot: nat): nat
    requires slot > 0
  {
    (slot - 1) * 8
  }

  /** Slots lie inside the device, apart from each other, with 32-bit addresses. */
  lemma SlotsApart(blocks: nat, s: nat, t: nat)
    requires 0 < s < SlotLimit(blocks) && 0 < t < SlotLimit(blocks) && s != t
    ensures StartLba(s) + 8 <= blocks && StartLba(s) < 0x1_0000_0000
    ensures StartLba(s) + 8 <= StartLba(t) || StartLba(t) + 8 <= StartLba(s)
  {
  }

  /** And there is no room for another, unless 24 bits are used up. */
  lemma SlotsAll(blocks: nat)
    ensures SlotLimit(blocks) == 0x100_0000 || blocks < 8 * SlotLimit(blocks) <= blocks + 8
  {
  }

  // ---- State ----

  type Block = seq<bv8>
  type Page = seq<Block>              // eight blocks

  /** A user page: which address space, which page of it. */
  datatype Key = Key(mm: nat, page: nat)

  /** A leaf page-table entry: nothing, a resident page with its rights, or a swap entry. */
  datatype Pte = Empty | Resident(frame: Word, user: bool, write: bool, execute: bool) | Swapped(entry: Word)

  type Ptes = map<Key, Pte>

  function At(ptes: Ptes, k: Key): Pte {
    if k in ptes then ptes[k] else Empty
  }

  ghost predicate Names(ptes: Ptes, k: Key, slot: nat) {
    At(ptes, k).Swapped? && SlotOf(At(ptes, k).entry) == slot
  }

  /** Every swap entry is well formed and names an occupied slot, no two name one slot, and every
      occupied slot is named or is the one in flight. */
  ghost predicate SlotsNamed(bits: seq<bv8>, limit: nat, ptes: Ptes, flying: Option<nat>)
    requires limit <= 8 * |bits|
  {
    && (forall k :: At(ptes, k).Swapped? ==>
          var e := At(ptes, k).entry; Formed(e) && 0 < SlotOf(e) < limit && Occupied(bits, SlotOf(e)) && Some(SlotOf(e)) != flying)
    && (forall j, k :: At(ptes, j).Swapped? && At(ptes, k).Swapped? && SlotOf(At(ptes, j).entry) == SlotOf(At(ptes, k).entry) ==> j == k)
    && (forall s: nat :: 0 < s < limit && Occupied(bits, s) ==> flying == Some(s) || exists k :: Names(ptes, k, s))
    && (flying.Some? ==> 0 < flying.value < limit && Occupied(bits, flying.value))
  }

  function Stored(disk: seq<Block>, slot: nat): Page
    requires 0 < slot && StartLba(slot) + 8 <= |disk|
  {
    disk[StartLba(slot)..StartLba(slot) + 8]
  }

  /** The disk holds the bytes of every page that is swapped out. */
  ghost predicate DiskHolds(disk: seq<Block>, limit: nat, ptes: Ptes, saved: map<Key, Page>)
    requires 8 * limit <= |disk| + 8
  {
    forall k :: At(ptes, k).Swapped? && 0 < SlotOf(At(ptes, k).entry) < limit ==>
      k in saved && saved[k] == Stored(disk, SlotOf(At(ptes, k).entry))
  }

  // ---- Bitmap and entries change together ----

  lemma ReservedNamed(bits: seq<bv8>, limit: nat, ptes: Ptes, s: nat)
    requires limit <= 8 * |bits| && SlotsNamed(bits, limit, ptes, None) && 0 < s < limit && !Occupied(bits, s)
    ensures SlotsNamed(SetOccupied(bits, s, true), limit, ptes, Some(s))
  {
    hide Occupied, SetOccupied;
    forall t: nat | t < limit
      ensures Occupied(SetOccupied(bits, s, true), t) == (t == s || Occupied(bits, t))
    {
      SetOne(bits, s, true, t);
    }
  }

  /** Giving up the slot in flight. */
  lemma AbandonedNamed(bits: seq<bv8>, limit: nat, ptes: Ptes, s: nat)
    requires limit <= 8 * |bits| && SlotsNamed(bits, limit, ptes, Some(s))
    ensures SlotsNamed(SetOccupied(bits, s, false), limit, ptes, None)
  {
    hide Occupied, SetOccupied;
    forall t: nat | t < limit
      ensures Occupied(SetOccupied(bits, s, false), t) == (t != s && Occupied(bits, t))
    {
      SetOne(bits, s, false, t);
    }
  }

  /** The slot in flight becomes the one `k` names. */
  lemma CommittedNamed(bits: seq<bv8>, limit: nat, ptes: Ptes, s: nat, k: Key, write: bool, execute: bool)
    requires limit <= 8 * |bits| && limit <= MAX_SLOTS && SlotsNamed(bits, limit, ptes, Some(s)) && !At(ptes, k).Swapped?
    ensures SlotsNamed(bits, limit, ptes[k := Swapped(Entry(s, write, execute))], None)
  {
    hide Occupied, Entry, Formed, SlotOf;
    EntryRoundTrip(s, write, execute);
    var ptes' := ptes[k := Swapped(Entry(s, write, execute))];
    assert forall j :: At(ptes', j) == if j == k then Swapped(Entry(s, write, execute)) else At(ptes, j);
    forall t: nat | 0 < t < limit && Occupied(bits, t)
      ensures exists j :: Names(ptes', j, t)
    {
      if t == s {
        assert Names(ptes', k, t);
      } else {
        var j :| Names(ptes, j, t);
        assert Names(ptes', j, t);
      }
    }
  }

  /** Giving up the slot that `k` names, as `k` stops naming it. */
  lemma ReleasedNamed(bits: seq<bv8>, limit: nat, ptes: Ptes, flying: Option<nat>, k: Key, pte: Pte)
    requires limit <= 8 * |bits| && SlotsNamed(bits, limit, ptes, flying) && At(ptes, k).Swapped? && !pte.Swapped?
    ensures SlotsNamed(SetOccupied(bits, SlotOf(At(ptes, k).entry), false), limit, ptes[k := pte], flying)
  {
    hide Occupied, SetOccupied, Formed, SlotOf;
    var s, ptes' := SlotOf(At(ptes, k).entry), ptes[k := pte];
    assert forall j :: At(ptes', j) == if j == k then pte else At(ptes, j);
    forall t: nat | t < limit
      ensures Occupied(SetOccupied(bits, s, false), t) == (t != s && Occupied(bits, t))
    {
      SetOne(bits, s, false, t);
    }
    forall t: nat | 0 < t < limit && t != s && Occupied(bits, t)
      ensures flying == Some(t) || exists j :: Names(ptes', j, t)
    {
      if flying != Some(t) {
        var j :| Names(ptes, j, t);
        assert Names(ptes', j, t);
      }
    }
  }

  // ---- Disk ----

  function Written(disk: seq<Block>, slot: nat, page: Page): seq<Block>
    requires 0 < slot && StartLba(slot) + 8 <= |disk| && |page| == 8
  {
    disk[..StartLba(slot)] + page + disk[StartLba(slot) + 8..]
  }

  /** Writing one slot leaves every other slot's bytes. */
  lemma WriteOne(disk: seq<Block>, limit: nat, slot: nat, page: Page, other: nat)
    requires 0 < slot < limit && 0 < other < limit && 8 * limit <= |disk| + 8 && |page| == 8
    ensures Stored(Written(disk, slot, page), other) == if other == slot then page else Stored(disk, other)
  {
    var lba, o, disk' := StartLba(slot), StartLba(other), Written(disk, slot, page);
    assert forall i :: 0 <= i < |disk| ==> disk'[i] == if lba <= i < lba + 8 then page[i - lba] else disk[i];
    assert other == slot || o + 8 <= lba || lba + 8 <= o;
    assert forall i :: 0 <= i < 8 ==> Stored(disk', other)[i] == disk'[o + i];
  }

  // ---- The slot search ----

  /** A search that started at slot `first` has looked at `slot` within its first `count` looks. */
  ghost predicate Looked(first: nat, count: nat, limit: nat, slot: nat) {
    if slot >= first then slot - first < count else slot + (limit - 1) - first < count
  }

  /** Frames: free ones are distinct, unreferenced and unmapped; mapped ones are referenced, and
      more than once if mapped more than once. */
  ghost predicate FramesOk(ptes: Ptes, pool: seq<Word>, refs: map<Word, nat>) {
    && NoRepeat(pool)
    && (forall f :: f in pool ==> Ref(refs, f) == 0)
    && (forall k :: At(ptes, k).Resident? ==> Ref(refs, At(ptes, k).frame) >= 1)
    && forall j, k :: At(ptes, j).Resident? && At(ptes, k).Resident? && j != k && At(ptes, j).frame == At(ptes, k).frame ==>
         Ref(refs, At(ptes, j).frame) >= 2
  }

  function Ref(refs: map<Word, nat>, f: Word): nat {
    if f in refs then refs[f] else 0
  }

  lemma SetBack(bits: seq<bv8>, slot: nat)
    requires slot < 8 * |bits| && !Occupied(bits, slot)
    ensures SetOccupied(SetOccupied(bits, slot, true), slot, false) == bits
  {
    hide Bit, WithBit;
    BitBack(bits[slot / 8], slot % 8);
  }

  lemma BitBack(b: bv8, k: nat)
    requires k < 8 && !Bit(b, k)
    ensures WithBit(WithBit(b, k, true), k, false) == b
  {
  }

  /** A page on its way out. */
  datatype Attempt = Attempt(key: Key, frame: Word, slot: nat, resident: Pte)

  ghost predicate UserPage(ptes: Ptes, k: Key, mm: nat, frame: Word) {
    k.mm == mm && k.page != 0 && At(ptes, k).Resident? && At(ptes, k).frame == frame && At(ptes, k).user
  }

  /** The oldest page of `mm`, the head of `queue`, is a user page with one owner, and a slot is free. */
  ghost predicate CanLeave(ptes: Ptes, refs: map<Word, nat>, bits: seq<bv8>, limit: nat, queue: seq<Word>, mm: nat)
    requires limit <= 8 * |bits|
  {
    && queue != [] && Ref(refs, queue[0]) == 1 && (exists k: Key :: UserPage(ptes, k, mm, queue[0]))
    && exists s: nat :: 0 < s < limit && !Occupied(bits, s)
  }

  /** A frame with one owner is found where it is mapped. */
  lemma OneOwner(ptes: Ptes, pool: seq<Word>, refs: map<Word, nat>, key: Option<Key>, mm: nat, frame: Word)
    requires FramesOk(ptes, pool, refs) && Ref(refs, frame) == 1
    requires key.Some? ==> key.value.mm == mm && key.value.page != 0 && At(ptes, key.value).Resident? && At(ptes, key.value).frame == frame
    requires key.None? ==> forall k: Key :: k.mm == mm && k.page != 0 && At(ptes, k).Resident? ==> At(ptes, k).frame != frame
    ensures (exists k: Key :: UserPage(ptes, k, mm, frame)) <==> key.Some? && At(ptes, key.value).user
  {
    if key.Some? && At(ptes, key.value).user {
      assert UserPage(ptes, key.value, mm, frame);
    }
  }

  function QueueOf(fifo: map<nat, seq<Word>>, mm: nat): seq<Word> {
    if mm in fifo then fifo[mm] else []
  }

  class SwapSpace {
    const limit: nat
    var bits: seq<bv8>
    var next: nat
    var disk: seq<Block>
    var ptes: Ptes
    var fifo: map<nat, seq<Word>>       // per address space, oldest page first
    var memory: map<Word, Page>
    var refs: map<Word, nat>
    var pool: seq<Word>
    ghost var flying: Option<nat>      // slot reserved by the transfer under way
    ghost var saved: map<Key, Page>    // bytes of the swapped-out pages

    ghost predicate Sized()
      reads this
    {
      && 1 < limit <= MAX_SLOTS && |bits| == Bytes(limit) && 1 <= next < limit && 8 * limit <= |disk| + 8
      && (forall f :: f in memory ==> |memory[f]| == 8)
    }

    ghost predicate Valid()
      reads this
    {
      && Sized()
      && SlotsNamed(bits, limit, ptes, flying)
      && DiskHolds(disk, limit, ptes, saved)
      && FramesOk(ptes, pool, refs)
    }

    function Queue(mm: nat): seq<Word>
      reads this
    {
      QueueOf(fifo, mm)
    }

    /** The device is taken over: every slot is free and no page is out. */
    constructor (disk: seq<Block>, pool: seq<Word>)
      requires |disk| >= 8 && NoRepeat(pool)
      ensures Valid() && limit == SlotLimit(|disk|) && this.disk == disk && this.pool == pool && ptes == map[] && flying == None
      ensures forall s: nat :: 0 < s < limit ==> !Occupied(bits, s)
    {
      limit, next, this.disk, this.pool := SlotLimit(|disk|), 1, disk, pool;
      bits := seq(Bytes(SlotLimit(|disk|)), _ => 0);
      ptes, fifo, memory, refs, flying, saved := map[], map[], map[], map[], None, map[];
    }

    /** Next fit: the first free slot from the cursor on, or Full when every slot is taken. */
    method ReserveSlot() returns (r: Result<nat>)
      requires Sized()
      modifies `bits, `next
      ensures Sized()
      ensures r.Success? ==> 0 < r.value < limit && !Occupied(old(bits), r.value) && bits == SetOccupied(old(bits), r.value, true)
      ensures r.Failure? ==> r.error == Full && bits == old(bits)
      ensures r.Failure? <==> forall s: nat :: 0 < s < limit ==> Occupied(old(bits), s)
    {
      hide Occupied, SetOccupied;
      ghost var first := next;
      var checked := 1;
      while checked < limit
        invariant 1 <= checked <= limit && Sized() && bits == old(bits)
        invariant next == if first + (checked - 1) < limit then first + (checked - 1) else first + (checked - 1) - (limit - 1)
        invariant forall s: nat :: 0 < s < limit && Looked(first, checked - 1, limit, s) ==> Occupied(bits, s)
      {
        var slot := next;
        next := next + 1;
        if next == limit {
          next := 1;
        }
        if !Occupied(bits, slot) {
          bits := SetOccupied(bits, slot, true);
          return Success(slot);
        }
        checked := checked + 1;
      }
      return Failure(Full);
    }

    /** The occupied slot an entry names, or 0. */
    function AllocatedSlot(entry: Word): nat
      requires Sized()
      reads this
    {
      if Formed(entry) && 0 < SlotOf(entry) < limit && Occupied(bits, SlotOf(entry)) then SlotOf(entry) else 0
    }

    method ReleaseEntry(entry: Word)
      requires Sized()
      modifies `bits
      ensures Sized()
      ensures bits == if old(AllocatedSlot(entry)) != 0 then SetOccupied(old(bits), SlotOf(entry), false) else old(bits)
    {
      var slot := AllocatedSlot(entry);
      if slot != 0 {
        bits := SetOccupied(bits, slot, false);
      }
    }

    /** The page of address space `mm` that maps `frame`, if any; page 0 stands for none. */
    method FindPage(mm: nat, frame: Word) returns (r: Option<Key>)
      ensures r.Some? ==> r.value.mm == mm && r.value.page != 0 && At(ptes, r.value).Resident? && At(ptes, r.value).frame == frame
      ensures r.None? ==> forall k: Key :: k.mm == mm && k.page != 0 && At(ptes, k).Resident? ==> At(ptes, k).frame != frame
    {
      if k: Key :| k in ptes && k.mm == mm && k.page != 0 && ptes[k].Resident? && ptes[k].frame == frame {
        return Some(k);
      } else {
        return None;
      }
    }

    /** A page that cannot go is the oldest again, and its slot is free again. */
    method PutBack(mm: nat, victim: Word, reserved: Result<nat>, ghost was: seq<bv8>)
      requires Sized() && |was| == |bits| && (reserved.Failure? ==> bits == was)
      requires reserved.Success? ==> 0 < reserved.value < limit && !Occupied(was, reserved.value) && bits == SetOccupied(was, reserved.value, true)
      modifies `bits, `fifo
      ensures Sized() && bits == was && fifo == old(fifo)[mm := [victim] + old(Queue(mm))]
    {
      hide Occupied, SetOccupied, Entry, Formed;
      if reserved.Success? {
        EntryRoundTrip(reserved.value, false, false);
        SetOne(was, reserved.value, true, reserved.value);
        ReleaseEntry(Entry(reserved.value, false, false));
        SetBack(was, reserved.value);
      }
      fifo := fifo[mm := [victim] + Queue(mm)];
    }

    /** Picks the oldest page of `mm` and reserves a slot for it; a page that cannot go is put back. */
    method OutBegin(mm: nat) returns (r: Option<Attempt>)
      requires Valid() && flying == None
      modifies `bits, `next, `fifo, `flying
      ensures Valid()
      ensures r.Some? <==> CanLeave(old(ptes), old(refs), old(bits), limit, old(Queue(mm)), mm)
      ensures r.Some? ==> Ref(refs, r.value.frame) == 1
      ensures r.None? ==> bits == old(bits) && flying == None && Queue(mm) == old(Queue(mm))
      ensures r.Some? ==> old(Queue(mm)) == [r.value.frame] + Queue(mm)
      ensures r.Some? ==> 0 < r.value.slot < limit && !Occupied(old(bits), r.value.slot) && bits == SetOccupied(old(bits), r.value.slot, true)
      ensures r.Some? ==> flying == Some(r.value.slot)
      ensures r.Some? ==> Leaving(r.value, mm)
      ensures forall m :: m != mm ==> Queue(m) == old(Queue(m))
    {
      hide Occupied, SetOccupied, SlotsNamed, DiskHolds, FramesOk, Entry, Formed, UserPage;
      if Queue(mm) == [] {
        return None;
      }
      var victim := Queue(mm)[0];
      fifo := fifo[mm := Queue(mm)[1..]];
      var key := FindPage(mm, victim);
      if Ref(refs, victim) == 1 {
        OneOwner(ptes, pool, refs, key, mm, victim);
      }
      var reserved := ReserveSlot();
      if key.None? || !At(ptes, key.value).user || Ref(refs, victim) != 1 || reserved.Failure? {
        PutBack(mm, victim, reserved, old(bits));
        return None;
      }
      ReservedNamed(old(bits), limit, ptes, reserved.value);
      flying := Some(reserved.value);
      r := Some(Attempt(key.value, victim, reserved.value, At(ptes, key.value)));
    }

    /** The attempt is about a user page of `mm`, with a slot of its own. */
    ghost predicate Leaving(at: Attempt, mm: nat)
      reads this
    {
      && at.key.mm == mm && at.key.page != 0 && 0 < at.slot < limit && flying == Some(at.slot)
      && at.resident.Resident? && at.resident.frame == at.frame && at.resident.user && At(ptes, at.key) == at.resident
    }

    /** Writes the page to its slot; a failed write leaves anything there. */
    method OutWrite(at: Attempt, ok: bool, garbage: Page)
      requires Valid() && flying == Some(at.slot) && 0 < at.slot < limit && |garbage| == 8
      modifies `disk
      ensures Valid() && Stored(disk, at.slot) == if ok then Content(at.frame) else garbage
    {
      hide SlotsNamed, FramesOk, Stored, Written;
      var page := if ok then Content(at.frame) else garbage;
      WrittenSized(disk, at.slot, page, limit);
      disk := Written(disk, at.slot, page);
      WriteOne(old(disk), limit, at.slot, page, at.slot);
      WriteKeeps(old(disk), limit, bits, ptes, saved, at.slot, page);
    }

    function Content(f: Word): (p: Page)
      requires Sized()
      reads this
      ensures |p| == 8
    {
      if f in memory then memory[f] else seq(8, i => [])
    }

    /** Makes the entry name the slot and frees the frame, unless the write failed or the page
        changed meanwhile: then the slot is given up and the page is the oldest again. */
    method OutFinish(at: Attempt, mm: nat, ok: bool) returns (done: bool)
      requires Valid() && 0 < at.slot < limit && flying == Some(at.slot) && at.key.mm == mm
      requires at.resident.Resident? && at.resident.frame == at.frame
      requires ok ==> Stored(disk, at.slot) == Content(at.frame)
      modifies `bits, `fifo, `ptes, `refs, `pool, `flying, `saved
      ensures Valid() && flying == None
      ensures done <==> ok && At(old(ptes), at.key) == at.resident && Ref(old(refs), at.frame) == 1
      ensures !done ==> bits == SetOccupied(old(bits), at.slot, false) && Queue(mm) == [at.frame] + old(Queue(mm))
      ensures !done ==> ptes == old(ptes) && refs == old(refs) && pool == old(pool) && saved == old(saved)
      ensures done ==> ptes == old(ptes)[at.key := Swapped(Entry(at.slot, at.resident.write, at.resident.execute))]
      ensures done ==> bits == old(bits) && Queue(mm) == old(Queue(mm)) && pool == old(pool) + [at.frame] && refs == old(refs)[at.frame := 0]
      ensures done ==> saved == old(saved)[at.key := Content(at.frame)]
      ensures forall m :: m != mm ==> Queue(m) == old(Queue(m))
    {
      hide Occupied, SetOccupied, SlotsNamed, DiskHolds, FramesOk, Entry, Formed, Stored, SlotOf;
      var entry := Entry(at.slot, at.resident.write, at.resident.execute);
      done := ok && At(ptes, at.key) == at.resident && Ref(refs, at.frame) == 1;
      if done {
        OutCommit(at, entry);
      } else {
        OutAbandon(at, mm, entry);
      }
    }

    /** The slot is free again and the page the oldest. */
    method OutAbandon(at: Attempt, mm: nat, entry: Word)
      requires Valid() && flying == Some(at.slot) && 0 < at.slot < limit
      requires at.resident.Resident? && entry == Entry(at.slot, at.resident.write, at.resident.execute)
      modifies `bits, `fifo, `flying
      ensures Valid() && flying == None && bits == SetOccupied(old(bits), at.slot, false) && fifo == old(fifo)[mm := [at.frame] + old(Queue(mm))]
    {
      hide Occupied, SetOccupied, SlotsNamed, DiskHolds, FramesOk, Entry, Formed, Stored, SlotOf;
      EntryRoundTrip(at.slot, at.resident.write, at.resident.execute);
      FlyingTaken(bits, limit, ptes, at.slot);
      ReleaseEntry(entry);
      fifo := fifo[mm := [at.frame] + Queue(mm)];
      AbandonedNamed(old(bits), limit, ptes, at.slot);
      flying := None;
    }

    /** The entry takes the page's place in the table, and its frame is free. */
    method OutCommit(at: Attempt, entry: Word)
      requires Valid() && flying == Some(at.slot) && 0 < at.slot < limit && Stored(disk, at.slot) == Content(at.frame)
      requires at.resident.Resident? && at.resident.frame == at.frame && At(ptes, at.key) == at.resident && Ref(refs, at.frame) == 1
      requires entry == Entry(at.slot, at.resident.write, at.resident.execute)
      modifies `ptes, `refs, `pool, `flying, `saved
      ensures Valid() && flying == None && ptes == old(ptes)[at.key := Swapped(entry)] && saved == old(saved)[at.key := Content(at.frame)]
      ensures pool == old(pool) + [at.frame] && refs == old(refs)[at.frame := 0]
    {
      hide Occupied, SlotsNamed, DiskHolds, FramesOk, Entry, Formed, Stored, SlotOf;
      EntryRoundTrip(at.slot, at.resident.write, at.resident.execute);
      CommittedNamed(bits, limit, ptes, at.slot, at.key, at.resident.write, at.resident.execute);
      CommittedHolds(disk, limit, ptes, saved, at.key, entry, at.slot);
      CommittedFrames(ptes, pool, refs, at.key, entry);
      ptes := ptes[at.key := Swapped(entry)];
      saved := saved[at.key := Content(at.frame)];
      refs := refs[at.frame := Ref(refs, at.frame) - 1];
      pool := pool + [at.frame];
      flying := None;
    }

    /** One page out.  A failure leaves entries, slots and queues as they were. */
    method OutOne(mm: nat, ok: bool, garbage: Page) returns (done: bool, key: Key, ghost slot: nat)
      requires Valid() && flying == None && |garbage| == 8
      modifies this
      ensures Valid() && flying == None
      ensures done <==> ok && CanLeave(old(ptes), old(refs), old(bits), limit, old(Queue(mm)), mm)
      ensures done ==> old(Queue(mm))[1..] == Queue(mm)
      ensures !done ==> ptes == old(ptes) && bits == old(bits) && refs == old(refs) && pool == old(pool) && saved == old(saved)
      ensures !done ==> forall m :: Queue(m) == old(Queue(m))
      ensures done ==> ok && old(Queue(mm)) != [] && WentOut(old(ptes), ptes, key, mm, old(Queue(mm))[0], slot)
      ensures done ==> pool == old(pool) + [old(Queue(mm))[0]] && memory == old(memory) && refs == old(refs)[old(Queue(mm))[0] := 0]
      ensures done ==> 0 < slot < limit && !Occupied(old(bits), slot) && bits == SetOccupied(old(bits), slot, true)
      ensures done ==> saved == old(saved)[key := old(Content(Queue(mm)[0]))]
    {
      hide Occupied, SetOccupied, SlotsNamed, DiskHolds, FramesOk, Entry, Formed, Stored, SlotOf, CanLeave;
      var at := OutBegin(mm);
      key, slot := Key(mm, 0), 0;
      if at.None? {
        done := false;
        return;
      }
      key, slot := at.value.key, at.value.slot;
      OutWrite(at.value, ok, garbage);
      done := OutFinish(at.value, mm, ok);
      if !done {
        SetBack(old(bits), at.value.slot);
        assert Queue(mm) == old(Queue(mm));
      }
    }

    /** Up to `count` pages out, stopping at the first that cannot go. */
    method Out(mm: nat, count: nat, ok: nat -> bool, garbage: Page) returns (swapped: nat)
      requires Valid() && flying == None && |garbage| == 8
      modifies this
      ensures Valid() && flying == None && swapped <= count
      ensures swapped < count && ok(swapped) ==> !CanLeave(ptes, refs, bits, limit, Queue(mm), mm)
      ensures |Queue(mm)| + swapped == |old(Queue(mm))| && |pool| == |old(pool)| + swapped
      ensures forall k :: At(old(ptes), k).Swapped? ==> At(ptes, k) == At(old(ptes), k) && k in saved && k in old(saved) && saved[k] == old(saved)[k]
    {
      hide SlotsNamed, FramesOk, Stored, Occupied, SetOccupied, Entry, SlotOf, CanLeave;
      swapped := 0;
      SavedKnown(disk, bits, limit, ptes, flying, saved);
      while swapped < count
        invariant Valid() && flying == None && swapped <= count
        invariant |Queue(mm)| + swapped == |old(Queue(mm))| && |pool| == |old(pool)| + swapped
        invariant forall k :: At(old(ptes), k).Swapped? ==> At(ptes, k) == At(old(ptes), k) && k in saved && k in old(saved) && saved[k] == old(saved)[k]
      {
        var done, key;
        ghost var slot;
        done, key, slot := OutOne(mm, ok(swapped), garbage);
        if !done {
          break;
        }
        swapped := swapped + 1;
      }
    }

    /** Reads the page behind `k` into a free frame. */
    method InBegin(k: Key, ok: bool) returns (r: Result<Incoming>)
      requires Valid() && flying == None
      modifies `pool, `memory
      ensures Valid()
      ensures r.Failure? ==> multiset(pool) == multiset(old(pool)) && memory == old(memory)
      ensures r.Failure? ==> r.error == if k !in ptes then NotFound else if !ptes[k].Swapped? then Invalid else if old(pool) == [] then NoMem else Io
      ensures r.Success? ==> At(ptes, k) == Swapped(r.value.entry) && old(pool) == [r.value.frame] + pool && Arrived(r.value.frame)
      ensures r.Success? ==> k in saved && Content(r.value.frame) == saved[k]
      ensures r.Failure? <==> k !in ptes || !ptes[k].Swapped? || old(pool) == [] || !ok
    {
      hide SlotsNamed, FramesOk, Stored, Occupied, SetOccupied, Formed, SlotOf;
      if k !in ptes {
        return Failure(NotFound);
      }
      SavedKnown(disk, bits, limit, ptes, flying, saved);
      assert At(ptes, k) == ptes[k];
      if !ptes[k].Swapped? || AllocatedSlot(ptes[k].entry) == 0 {
        return Failure(Invalid);
      }
      if pool == [] {
        return Failure(NoMem);
      }
      var frame := pool[0];
      FrameLeaves(ptes, pool, refs);
      pool := pool[1..];
      assert old(pool) == [frame] + pool;
      if !ok {
        FrameReturns(ptes, pool, refs, frame);
        pool := pool + [frame];
        return Failure(Io);
      }
      StoredSized(disk, limit, SlotOf(ptes[k].entry));
      memory := memory[frame := Stored(disk, SlotOf(ptes[k].entry))];
      r := Success(Incoming(ptes[k].entry, frame));
    }

    /** The frame is free but no longer in the pool. */
    ghost predicate Arrived(frame: Word)
      reads this
    {
      frame !in pool && Ref(refs, frame) == 0 && forall k :: At(ptes, k).Resident? ==> At(ptes, k).frame != frame
    }

    /** Maps the frame with the entry's rights, queues it as the youngest and gives the slot up,
        unless the entry changed meanwhile. */
    method InFinish(k: Key, inc: Incoming) returns (e: Error)
      requires Valid() && flying == None && Arrived(inc.frame)
      modifies `bits, `fifo, `ptes, `refs, `pool, `saved
      ensures Valid()
      ensures e == (if At(old(ptes), k) == Swapped(inc.entry) then NoError else Busy)
      ensures e != NoError ==> pool == old(pool) + [inc.frame] && unchanged(`bits, `fifo, `ptes, `refs, `saved)
      ensures e == NoError ==> ptes == old(ptes)[k := Resident(inc.frame, true, WriteOf(inc.entry), ExecuteOf(inc.entry))]
      ensures e == NoError ==> SlotOf(inc.entry) < limit && bits == SetOccupied(old(bits), SlotOf(inc.entry), false)
      ensures e == NoError ==> Queue(k.mm) == old(Queue(k.mm)) + [inc.frame] && pool == old(pool) && refs == old(refs)[inc.frame := 1]
      ensures forall m :: m != k.mm ==> Queue(m) == old(Queue(m))
    {
      hide SlotsNamed, FramesOk, DiskHolds, Stored, Occupied, SetOccupied, Formed, SlotOf, WriteOf, ExecuteOf, Entry, Ref;
      if At(ptes, k) != Swapped(inc.entry) {
        FrameReturns(ptes, pool, refs, inc.frame);
        pool := pool + [inc.frame];
        return Busy;
      }
      InCommit(k, inc);
      return NoError;
    }

    /** The frame takes the entry's place in the table, and the slot is free. */
    method InCommit(k: Key, inc: Incoming)
      requires Valid() && flying == None && Arrived(inc.frame) && At(ptes, k) == Swapped(inc.entry)
      modifies `bits, `fifo, `ptes, `refs, `saved
      ensures Valid() && ptes == old(ptes)[k := Resident(inc.frame, true, WriteOf(inc.entry), ExecuteOf(inc.entry))]
      ensures SlotOf(inc.entry) < limit && bits == SetOccupied(old(bits), SlotOf(inc.entry), false)
      ensures fifo == old(fifo)[k.mm := old(Queue(k.mm)) + [inc.frame]] && refs == old(refs)[inc.frame := 1]
    {
      hide SlotsNamed, FramesOk, DiskHolds, Stored, Occupied, SetOccupied, Formed, SlotOf, WriteOf, ExecuteOf, Entry, Ref;
      var pte := Resident(inc.frame, true, WriteOf(inc.entry), ExecuteOf(inc.entry));
      NamedSlotTaken(bits, limit, ptes, flying, k);
      ReleasedNamed(bits, limit, ptes, flying, k, pte);
      ArrivedFrames(ptes, pool, refs, k, pte);
      ForgetHolds(disk, limit, ptes, saved, k, pte);
      fifo := fifo[k.mm := Queue(k.mm) + [inc.frame]];
      ptes := ptes[k := pte];
      refs := refs[inc.frame := Ref(refs, inc.frame) + 1];
      ReleaseEntry(inc.entry);
      saved := saved - {k};
    }

    /** Page `k` gets the free frame `f` and is the youngest of its address space; `rest` is still free.  A swap
        entry that stood for the page is overwritten, and its slot is then lost: no page names it. */
    method MapPage(k: Key, f: Word, write: bool, execute: bool, rest: seq<Word>)
      requires Valid() && flying == None && !At(ptes, k).Resident?
      requires f in pool && f !in rest && NoRepeat(rest) && forall g :: g in rest ==> g in pool
      modifies `ptes, `refs, `pool, `fifo
      ensures Valid() <==> !At(old(ptes), k).Swapped?
      ensures ptes == old(ptes)[k := Resident(f, true, write, execute)] && pool == rest && refs == old(refs)[f := 1]
      ensures fifo == old(fifo)[k.mm := old(Queue(k.mm)) + [f]]
    {
      hide SlotsNamed, FramesOk, DiskHolds, Stored, Occupied, Formed, SlotOf, Ref;
      var pte := Resident(f, true, write, execute);
      FewerFrames(ptes, pool, refs, f, rest);
      ArrivedFrames(ptes, rest, refs, k, pte);
      OverwrittenNamed(bits, limit, ptes, k, pte);
      OverwrittenHolds(disk, limit, ptes, saved, k, pte);
      fifo := fifo[k.mm := Queue(k.mm) + [f]];
      ptes := ptes[k := pte];
      refs := refs[f := Ref(refs, f) + 1];
      pool := rest;
    }

    /** Some free frames became tables. */
    method LoseFrames(rest: seq<Word>)
      requires Valid() && NoRepeat(rest) && forall g :: g in rest ==> g in pool
      modifies `pool
      ensures Valid() && pool == rest
    {
      pool := rest;
    }

    method ReleaseAll(entries: seq<Word>)
      requires Sized() && forall i :: 0 <= i < |entries| ==> Formed(entries[i]) && 0 < SlotOf(entries[i]) < limit
      modifies `bits
      ensures Sized() && Released(old(bits), bits, limit, entries, |entries|)
    {
      hide Occupied, SetOccupied, Formed, SlotOf;
      for n := 0 to |entries|
        invariant Sized() && Released(old(bits), bits, limit, entries, n)
      {
        ghost var was := bits;
        ReleaseEntry(entries[n]);
        OneReleased(was, old(bits), bits, limit, entries, n);
      }
    }

    /** The end of address space `mm`: the entries its tables named are released one by one, its pages leave
        the queues, and the frames `back` are free. */
    method Teardown(mm: nat, entries: seq<Word>, back: seq<Word>)
      requires Valid() && flying == None && NoRepeat(back)
      requires forall e :: e in entries <==> exists k :: Holds(ptes, k, mm, e)
      requires forall f :: f in back ==> Ref(refs, f) == if f in FramesOf(ptes, mm) then 1 else 0
      modifies this
      ensures Valid() && flying == None && pool == back
      ensures ptes == AfterMm(old(ptes), mm)
      ensures forall s: nat :: 0 < s < limit ==> (Occupied(bits, s) <==> Occupied(old(bits), s) && !NamedBy(old(ptes), mm, s))
      ensures saved == map k | k in old(saved) && k.mm != mm :: old(saved)[k]
      ensures forall m :: Queue(m) == Kept(old(Queue(m)), FramesOf(old(ptes), mm))
    {
      hide SlotsNamed, FramesOk, DiskHolds, Stored, Occupied, SetOccupied, Formed, SlotOf, Ref, Released, NamedBy, Holds, Kept, AfterMm, Dequeued,
        NoRepeat, FramesOf, QueueOf;
      EntriesFormed(bits, limit, ptes, mm, entries);
      ghost var bits0 := bits;
      ReleaseAll(entries);
      SlotsGone(bits0, bits, limit, ptes, mm, entries);
      FramesGone(ptes, mm, pool, back, refs);
      HeldStill(disk, limit, ptes, saved, mm);
      fifo := Dequeued(fifo, FramesOf(ptes, mm));
      ptes := AfterMm(ptes, mm);
      refs := map f | f in refs :: if f in back then 0 else refs[f];
      saved := map k | k in saved && k.mm != mm :: saved[k];
      pool := back;
    }

    /** Gives up the swap entry of `k`, as a teardown does. */
    method Discard(k: Key)
      requires Valid() && At(ptes, k).Swapped?
      modifies `bits, `ptes, `saved
      ensures Valid() && ptes == old(ptes)[k := Empty] && saved == old(saved) - {k}
      ensures SlotOf(At(old(ptes), k).entry) < limit && bits == SetOccupied(old(bits), SlotOf(At(old(ptes), k).entry), false)
    {
      hide SlotsNamed, FramesOk, DiskHolds, Stored, Occupied, SetOccupied, Formed, SlotOf;
      var entry := ptes[k].entry;
      NamedSlotTaken(bits, limit, ptes, flying, k);
      ReleasedNamed(bits, limit, ptes, flying, k, Empty);
      DroppedFrames(ptes, pool, refs, k);
      ForgetHolds(disk, limit, ptes, saved, k, Empty);
      ReleaseEntry(entry);
      ptes := ptes[k := Empty];
      saved := saved - {k};
    }

    /** Out and in again: the page has its bytes and its rights back, and its slot is free again. */
    method OutThenIn(mm: nat, garbage: Page) returns (done: bool, key: Key)
      requires Valid() && flying == None && |garbage| == 8
      modifies this
      ensures Valid() && flying == None
      ensures done <==> CanLeave(old(ptes), old(refs), old(bits), limit, old(Queue(mm)), mm)
      ensures done ==> At(old(ptes), key).Resident? && At(ptes, key).Resident?
      ensures done ==> At(ptes, key).write == At(old(ptes), key).write && At(ptes, key).execute == At(old(ptes), key).execute
      ensures done ==> old(Queue(mm)) != [] && At(old(ptes), key).frame == old(Queue(mm))[0]
      ensures done ==> Content(At(ptes, key).frame) == old(Content(Queue(mm)[0]))
      ensures done ==> bits == old(bits) && forall k :: k != key ==> At(ptes, k) == At(old(ptes), k)
      ensures !done ==> ptes == old(ptes) && bits == old(bits)
    {
      hide SlotsNamed, FramesOk, DiskHolds, Stored, Occupied, SetOccupied, Formed, SlotOf, WriteOf, ExecuteOf, Entry;
      ghost var slot;
      done, key, slot := OutOne(mm, true, garbage);
      if !done {
        return;
      }
      EntryRoundTrip(slot, At(old(ptes), key).write, At(old(ptes), key).execute);
      var inc := InBegin(key, true);
      var e := InFinish(key, inc.value);
      SetBack(old(bits), slot);
    }
  }

  // ---- The end of an address space ----

  ghost predicate Holds(ptes: Ptes, k: Key, mm: nat, e: Word) {
    k.mm == mm && At(ptes, k) == Swapped(e)
  }

  /** The frames of the resident pages of `mm`. */
  function FramesOf(ptes: Ptes, mm: nat): (r: set<Word>)
    ensures forall k: Key :: k.mm == mm && At(ptes, k).Resident? ==> At(ptes, k).frame in r
    ensures forall f :: f in r ==> exists k: Key :: k.mm == mm && At(ptes, k).Resident? && At(ptes, k).frame == f
  {
    set k | k in ptes && k.mm == mm && ptes[k].Resident? :: ptes[k].frame
  }

  function Kept(queue: seq<Word>, gone: set<Word>): (r: seq<Word>)
    ensures forall f :: f in r <==> f in queue && f !in gone
  {
    if queue == [] then []
    else (if queue[0] in gone then [] else [queue[0]]) + Kept(queue[1..], gone)
  }

  /** The queues without the pages that are gone. */
  function Dequeued(fifo: map<nat, seq<Word>>, gone: set<Word>): (r: map<nat, seq<Word>>)
    ensures forall m :: QueueOf(r, m) == Kept(QueueOf(fifo, m), gone)
  {
    map m | m in fifo :: Kept(fifo[m], gone)
  }

  /** The entries of all address spaces but `mm`. */
  function AfterMm(ptes: Ptes, mm: nat): (r: Ptes)
    ensures forall k :: At(r, k) == if k.mm == mm then Empty else At(ptes, k)
  {
    map k | k in ptes && k.mm != mm :: ptes[k]
  }

  lemma EntriesFormed(bits: seq<bv8>, limit: nat, ptes: Ptes, mm: nat, entries: seq<Word>)
    requires limit <= 8 * |bits| && SlotsNamed(bits, limit, ptes, None) && forall e :: e in entries ==> exists k :: Holds(ptes, k, mm, e)
    ensures forall i :: 0 <= i < |entries| ==> Formed(entries[i]) && 0 < SlotOf(entries[i]) < limit
  {
    hide Formed, SlotOf, Occupied;
    forall i | 0 <= i < |entries|
      ensures Formed(entries[i]) && 0 < SlotOf(entries[i]) < limit
    {
      assert entries[i] in entries;
      var k :| Holds(ptes, k, mm, entries[i]);
    }
  }

  ghost predicate SlotIn(entries: seq<Word>, n: nat, s: nat) {
    exists i :: 0 <= i < n <= |entries| && SlotOf(entries[i]) == s
  }

  ghost predicate NamedBy(ptes: Ptes, mm: nat, s: nat) {
    exists k: Key :: k.mm == mm && Names(ptes, k, s)
  }

  /** The slots of the first `n` entries are free, the others as they were. */
  ghost predicate Released(bits: seq<bv8>, bits': seq<bv8>, limit: nat, entries: seq<Word>, n: nat) {
    && |bits'| == |bits| && limit <= 8 * |bits|
    && forall s: nat :: 0 < s < limit ==> (Occupied(bits', s) <==> Occupied(bits, s) && !SlotIn(entries, n, s))
  }

  lemma OneReleased(was: seq<bv8>, bits0: seq<bv8>, bits: seq<bv8>, limit: nat, entries: seq<Word>, n: nat)
    requires Released(bits0, was, limit, entries, n) && n < |entries| && 0 < SlotOf(entries[n]) < limit
    requires bits == if Occupied(was, SlotOf(entries[n])) then SetOccupied(was, SlotOf(entries[n]), false) else was
    ensures Released(bits0, bits, limit, entries, n + 1)
  {
    hide Occupied, SetOccupied, SlotOf;
    var slot := SlotOf(entries[n]);
    forall s: nat | 0 < s < limit
      ensures Occupied(bits, s) <==> Occupied(bits0, s) && !SlotIn(entries, n + 1, s)
    {
      if Occupied(was, slot) {
        SetOne(was, slot, false, s);
      }
      assert SlotIn(entries, n + 1, s) <==> SlotIn(entries, n, s) || slot == s;
    }
  }

  /** The slots that were released are those the pages of `mm` named. */
  lemma SlotsGone(bits: seq<bv8>, bits': seq<bv8>, limit: nat, ptes: Ptes, mm: nat, entries: seq<Word>)
    requires limit <= 8 * |bits| && SlotsNamed(bits, limit, ptes, None) && Released(bits, bits', limit, entries, |entries|)
    requires forall e :: e in entries <==> exists k :: Holds(ptes, k, mm, e)
    ensures forall s: nat :: 0 < s < limit ==> (Occupied(bits', s) <==> Occupied(bits, s) && !NamedBy(ptes, mm, s))
    ensures SlotsNamed(bits', limit, AfterMm(ptes, mm), None)
  {
    hide Occupied, SlotOf, Formed, AfterMm;
    var ptes' := AfterMm(ptes, mm);
    forall s: nat
      ensures SlotIn(entries, |entries|, s) <==> NamedBy(ptes, mm, s)
    {
      if SlotIn(entries, |entries|, s) {
        var i :| 0 <= i < |entries| && SlotOf(entries[i]) == s;
        assert entries[i] in entries;
        var k :| Holds(ptes, k, mm, entries[i]);
        assert Names(ptes, k, s);
      }
      if NamedBy(ptes, mm, s) {
        var k: Key :| k.mm == mm && Names(ptes, k, s);
        assert Holds(ptes, k, mm, At(ptes, k).entry);
        assert At(ptes, k).entry in entries;
      }
    }
    forall k | At(ptes', k).Swapped?
      ensures Occupied(bits', SlotOf(At(ptes', k).entry))
    {
      assert k.mm != mm && At(ptes, k) == At(ptes', k);
      assert Names(ptes, k, SlotOf(At(ptes, k).entry));
    }
    forall s: nat | 0 < s < limit && Occupied(bits', s)
      ensures exists k :: Names(ptes', k, s)
    {
      var k :| Names(ptes, k, s);
      assert Names(ptes', k, s);
    }
  }

  lemma FramesGone(ptes: Ptes, mm: nat, pool: seq<Word>, back: seq<Word>, refs: map<Word, nat>)
    requires FramesOk(ptes, pool, refs) && NoRepeat(back)
    requires forall f :: f in back ==> Ref(refs, f) == if f in FramesOf(ptes, mm) then 1 else 0
    ensures FramesOk(AfterMm(ptes, mm), back, map f | f in refs :: if f in back then 0 else refs[f])
  {
    hide NoRepeat, AfterMm, FramesOf;
    var ptes', refs' := AfterMm(ptes, mm), map f | f in refs :: if f in back then 0 else refs[f];
    assert forall f :: Ref(refs', f) == if f in back then 0 else Ref(refs, f);
    forall k | At(ptes', k).Resident?
      ensures At(ptes', k).frame !in back
    {
      assert k.mm != mm && At(ptes, k) == At(ptes', k);
    }
  }

  lemma HeldStill(disk: seq<Block>, limit: nat, ptes: Ptes, saved: map<Key, Page>, mm: nat)
    requires 8 * limit <= |disk| + 8 && DiskHolds(disk, limit, ptes, saved)
    ensures DiskHolds(disk, limit, AfterMm(ptes, mm), map k | k in saved && k.mm != mm :: saved[k])
  {
    hide Stored, SlotOf, AfterMm;
  }

  lemma FewerFrames(ptes: Ptes, pool: seq<Word>, refs: map<Word, nat>, f: Word, rest: seq<Word>)
    requires FramesOk(ptes, pool, refs) && f in pool && NoRepeat(rest) && forall g :: g in rest ==> g in pool
    ensures FramesOk(ptes, rest, refs) && Ref(refs, f) == 0 && forall k :: At(ptes, k).Resident? ==> At(ptes, k).frame != f
  {
  }

  /** A page that overwrites an entry leaves its slot occupied and unnamed; one that does not changes no slot. */
  lemma OverwrittenNamed(bits: seq<bv8>, limit: nat, ptes: Ptes, k: Key, pte: Pte)
    requires limit <= 8 * |bits| && SlotsNamed(bits, limit, ptes, None) && pte.Resident?
    ensures SlotsNamed(bits, limit, ptes[k := pte], None) <==> !At(ptes, k).Swapped?
  {
    hide Occupied, SlotOf, Formed;
    var ptes' := ptes[k := pte];
    assert forall j :: At(ptes', j) == if j == k then pte else At(ptes, j);
    if At(ptes, k).Swapped? {
      var s := SlotOf(At(ptes, k).entry);
      assert forall j :: !Names(ptes', j, s);
    } else {
      forall s: nat | 0 < s < limit && Occupied(bits, s)
        ensures exists j :: Names(ptes', j, s)
      {
        var j :| Names(ptes, j, s);
        assert Names(ptes', j, s);
      }
    }
  }

  lemma OverwrittenHolds(disk: seq<Block>, limit: nat, ptes: Ptes, saved: map<Key, Page>, k: Key, pte: Pte)
    requires 8 * limit <= |disk| + 8 && DiskHolds(disk, limit, ptes, saved) && pte.Resident?
    ensures DiskHolds(disk, limit, ptes[k := pte], saved)
  {
    hide Stored, SlotOf;
    var ptes' := ptes[k := pte];
    assert forall j :: At(ptes', j) == if j == k then pte else At(ptes, j);
  }

  datatype Incoming = Incoming(entry: Word, frame: Word)

  /** Page `k` of `mm`, resident in `frame`, became the swap entry of `slot` with its rights. */
  ghost predicate WentOut(ptes: Ptes, ptes': Ptes, k: Key, mm: nat, frame: Word, slot: nat) {
    && UserPage(ptes, k, mm, frame)
    && ptes' == ptes[k := Swapped(Entry(slot, At(ptes, k).write, At(ptes, k).execute))]
  }

  lemma FlyingTaken(bits: seq<bv8>, limit: nat, ptes: Ptes, s: nat)
    requires limit <= 8 * |bits| && SlotsNamed(bits, limit, ptes, Some(s))
    ensures 0 < s < limit && Occupied(bits, s)
  {
  }

  lemma WrittenSized(disk: seq<Block>, slot: nat, page: Page, limit: nat)
    requires 0 < slot < limit && 8 * limit <= |disk| + 8 && |page| == 8
    ensures |Written(disk, slot, page)| == |disk|
  {
  }

  lemma WriteKeeps(disk: seq<Block>, limit: nat, bits: seq<bv8>, ptes: Ptes, saved: map<Key, Page>, slot: nat, page: Page)
    requires 0 < slot < limit <= 8 * |bits| && 8 * limit <= |disk| + 8 && |page| == 8
    requires SlotsNamed(bits, limit, ptes, Some(slot)) && DiskHolds(disk, limit, ptes, saved)
    ensures |Written(disk, slot, page)| == |disk| && DiskHolds(Written(disk, slot, page), limit, ptes, saved)
  {
    hide Occupied, Formed, SlotOf, Written, Stored;
    WrittenSized(disk, slot, page, limit);
    forall k | At(ptes, k).Swapped? && 0 < SlotOf(At(ptes, k).entry) < limit
      ensures k in saved && saved[k] == Stored(Written(disk, slot, page), SlotOf(At(ptes, k).entry))
    {
      WriteOne(disk, limit, slot, page, SlotOf(At(ptes, k).entry));
    }
  }

  lemma CommittedHolds(disk: seq<Block>, limit: nat, ptes: Ptes, saved: map<Key, Page>, k: Key, entry: Word, slot: nat)
    requires 0 < slot < limit && 8 * limit <= |disk| + 8 && SlotOf(entry) == slot && DiskHolds(disk, limit, ptes, saved)
    ensures DiskHolds(disk, limit, ptes[k := Swapped(entry)], saved[k := Stored(disk, slot)])
  {
    hide Stored;
    var ptes' := ptes[k := Swapped(entry)];
    assert forall j :: At(ptes', j) == if j == k then Swapped(entry) else At(ptes, j);
  }

  lemma CommittedFrames(ptes: Ptes, pool: seq<Word>, refs: map<Word, nat>, k: Key, entry: Word)
    requires FramesOk(ptes, pool, refs) && At(ptes, k).Resident? && Ref(refs, At(ptes, k).frame) == 1
    ensures FramesOk(ptes[k := Swapped(entry)], pool + [At(ptes, k).frame], refs[At(ptes, k).frame := 0])
  {
    var f := At(ptes, k).frame;
    var ptes', refs' := ptes[k := Swapped(entry)], refs[f := 0];
    assert forall j :: At(ptes', j) == if j == k then Swapped(entry) else At(ptes, j);
    assert forall g :: Ref(refs', g) == if g == f then 0 else Ref(refs, g);
  }

  lemma SavedKnown(disk: seq<Block>, bits: seq<bv8>, limit: nat, ptes: Ptes, flying: Option<nat>, saved: map<Key, Page>)
    requires limit <= 8 * |bits| && 8 * limit <= |disk| + 8 && SlotsNamed(bits, limit, ptes, flying) && DiskHolds(disk, limit, ptes, saved)
    ensures forall k :: At(ptes, k).Swapped? ==>
      var s := SlotOf(At(ptes, k).entry);
      Formed(At(ptes, k).entry) && 0 < s < limit && Occupied(bits, s) && k in saved && saved[k] == Stored(disk, s)
  {
    hide Stored, Occupied, SlotOf, Formed;
  }

  lemma StoredSized(disk: seq<Block>, limit: nat, slot: nat)
    requires 0 < slot < limit && 8 * limit <= |disk| + 8
    ensures |Stored(disk, slot)| == 8
  {
  }

  lemma NamedSlotTaken(bits: seq<bv8>, limit: nat, ptes: Ptes, flying: Option<nat>, k: Key)
    requires limit <= 8 * |bits| && SlotsNamed(bits, limit, ptes, flying) && At(ptes, k).Swapped?
    ensures var e := At(ptes, k).entry; Formed(e) && 0 < SlotOf(e) < limit && Occupied(bits, SlotOf(e))
  {
  }

  lemma FrameLeaves(ptes: Ptes, pool: seq<Word>, refs: map<Word, nat>)
    requires FramesOk(ptes, pool, refs) && pool != []
    ensures FramesOk(ptes, pool[1..], refs) && pool[0] !in pool[1..] && Ref(refs, pool[0]) == 0
    ensures forall k :: At(ptes, k).Resident? ==> At(ptes, k).frame != pool[0]
  {
  }

  lemma FrameReturns(ptes: Ptes, pool: seq<Word>, refs: map<Word, nat>, frame: Word)
    requires FramesOk(ptes, pool, refs) && frame !in pool && Ref(refs, frame) == 0
    ensures FramesOk(ptes, pool + [frame], refs)
  {
  }

  lemma ArrivedFrames(ptes: Ptes, pool: seq<Word>, refs: map<Word, nat>, k: Key, pte: Pte)
    requires FramesOk(ptes, pool, refs) && !At(ptes, k).Resident? && pte.Resident? && pte.frame !in pool && Ref(refs, pte.frame) == 0
    requires forall j :: At(ptes, j).Resident? ==> At(ptes, j).frame != pte.frame
    ensures FramesOk(ptes[k := pte], pool, refs[pte.frame := Ref(refs, pte.frame) + 1])
  {
    var ptes', refs' := ptes[k := pte], refs[pte.frame := Ref(refs, pte.frame) + 1];
    assert forall j :: At(ptes', j) == if j == k then pte else At(ptes, j);
    assert forall g :: Ref(refs', g) == if g == pte.frame then 1 else Ref(refs, g);
  }

  lemma DroppedFrames(ptes: Ptes, pool: seq<Word>, refs: map<Word, nat>, k: Key)
    requires FramesOk(ptes, pool, refs)
    ensures FramesOk(ptes[k := Empty], pool, refs)
  {
    var ptes' := ptes[k := Empty];
    assert forall j :: At(ptes', j) == if j == k then Empty else At(ptes, j);
  }

  lemma ForgetHolds(disk: seq<Block>, limit: nat, ptes: Ptes, saved: map<Key, Page>, k: Key, pte: Pte)
    requires 8 * limit <= |disk| + 8 && DiskHolds(disk, limit, ptes, saved) && !pte.Swapped?
    ensures DiskHolds(disk, limit, ptes[k := pte], saved - {k})
  {
    hide Stored;
    var ptes' := ptes[k := pte];
    assert forall j :: At(ptes', j) == if j == k then pte else At(ptes, j);
  }

  /** Takes over a dedicated device, unless there is none, it is too small or memory runs out. */
  method Begin(disk: Option<seq<Block>>, pool: seq<Word>, haveMemory: bool) returns (r: Option<SwapSpace>)
    requires NoRepeat(pool)
    ensures r.Some? <==> disk.Some? && SlotLimit(|disk.value|) > 1 && haveMemory
    ensures r.Some? ==> fresh(r.value) && r.value.Valid() && r.value.flying == None && r.value.ptes == map[] && r.value.disk == disk.value
    ensures r.Some? ==> r.value.limit == SlotLimit(|disk.value|) && forall s: nat :: 0 < s < r.value.limit ==> !Occupied(r.value.bits, s)
  {
    if disk.None? || SlotLimit(|disk.value|) <= 1 || !haveMemory {
      return None;
    }
    var s := new SwapSpace(disk.value, pool);
    r := Some(s);
  }
}
