/** Multi-level page tables for any number of levels and any entry encoding that obeys the
    laws below; the x86, AArch64 and Sv39 encodings are shown to obey them elsewhere. */
module PageTables {
  import opened Errors

  /** A page-table word, or an address. */
  datatype Word = Word(bits: bv64)

  const ZERO := Word(0)

  /** The slots of a table. */
  newtype Index = i: int | 0 <= i < 512

  datatype Rights = Rights(user: bool, read: bool, write: bool, execute: bool)

  const ALL := Rights(true, true, true, true)

  function Meet(r: Rights, s: Rights): Rights {
    Rights(r.user && s.user, r.read && s.read, r.write && s.write, r.execute && s.execute)
  }

  /** What a virtual address stands for: where it goes, with which rights, and how it is cached. */
  datatype Translation = Translation(pa: Word, rights: Rights, cache: Word)

  /** An entry format.  Level 0 is the root; level `levels - 1` holds the page entries. */
  datatype Arch = Arch(
    levels: nat,
    index: (Word, nat) -> Index,          // table index of an address at a level
    isFrame: Word -> bool,                // physical addresses a table or page can have
    present: Word -> bool,
    isBlock: Word -> bool,
    addr: Word -> Word,
    makeTable: Word -> Word,
    makePage: (Word, bv32) -> Word,
    split: (Word, nat, Index) -> Word,    // entry at this level and index of a block one level up
    leafPa: (Word, nat, Word) -> Word,    // where a leaf entry at a level sends an address
    leafRights: Word -> Rights,
    tableRights: Word -> Rights,          // what a table entry lets through
    cache: (Word, nat) -> Word,           // memory type of a leaf entry at a level
    memory: bool -> Word,                 // memory type of a page that is asked for uncached, or not
    userTop: bv64)                        // first address above user space

  ghost predicate TableLaw(a: Arch) {
    forall pa :: a.isFrame(pa) ==>
      var e := a.makeTable(pa);
      a.present(e) && !a.isBlock(e) && a.addr(e) == pa && a.tableRights(e) == ALL
  }

  /** The pieces of a block are leaves that send every address to the same place as before. */
  ghost predicate PieceOk(a: Arch, e: Word, l: nat, va: Word) {
    l + 1 < a.levels && a.present(e) && a.isBlock(e) ==>
      var s := a.split(e, l + 1, a.index(va, l + 1));
      && a.present(s) && (l + 2 < a.levels ==> a.isBlock(s))
      && a.leafPa(s, l + 1, va) == a.leafPa(e, l, va)
      && a.leafRights(s) == a.leafRights(e)
      && a.cache(s, l + 1) == a.cache(e, l)
  }

  /** No piece of a block is a table. */
  ghost predicate LeafPiece(a: Arch, e: Word, l: nat, i: Index) {
    l + 2 < a.levels && a.present(e) && a.isBlock(e) ==> !IsTable(a, a.split(e, l + 1, i))
  }

  ghost predicate SplitLaw(a: Arch) {
    && (forall e, l: nat, va :: PieceOk(a, e, l, va))
    && forall e, l: nat, i :: LeafPiece(a, e, l, i)
  }

  function PermRights(perm: bv32): Rights {
    Rights(perm & VM_USER != 0, true, perm & VM_WRITE != 0, perm & VM_NOEXEC == 0)
  }

  /** Where `va` falls in the 4 KB frame at `pa`. */
  function InFrame(pa: Word, va: Word): Word {
    Word(pa.bits + (va.bits & 0xFFF))
  }

  /** A page entry sends every address into its frame, with the rights and the memory type that were asked for. */
  ghost predicate PageOk(a: Arch, pa: Word, perm: bv32) {
    a.levels > 0 && a.isFrame(pa) ==>
      var e := a.makePage(pa, perm);
      && a.present(e) && a.addr(e) == pa && a.leafRights(e) == PermRights(perm)
      && a.cache(e, a.levels - 1) == a.memory(perm & VM_NOCACHE != 0)
      && forall va :: a.leafPa(e, a.levels - 1, va) == InFrame(pa, va)
  }

  ghost predicate PageLaw(a: Arch) {
    forall pa, perm :: PageOk(a, pa, perm)
  }

  ghost predicate Lawful(a: Arch) {
    && 1 <= a.levels
    && !a.present(ZERO)
    && TableLaw(a)
    && SplitLaw(a)
    && PageLaw(a)
    && forall e :: a.tableRights(e).read
  }

  // Mapping requests, the architecture-independent permission bits.
  const VM_WRITE: bv32 := 2
  const VM_USER: bv32 := 4
  const VM_NOCACHE: bv32 := 8
  const VM_NOEXEC: bv32 := 16

  // ---- Memory and translation ----

  /** Table memory: the word at (frame, index); words never written are zero. */
  type Memory = map<(Word, Index), Word>

  function Get(mem: Memory, frame: Word, i: Index): Word {
    if (frame, i) in mem then mem[(frame, i)] else ZERO
  }

  /** The hardware's walk from a table at level `l`, with the rights let through so far. */
  function WalkFrom(a: Arch, mem: Memory, frame: Word, va: Word, l: nat, rights: Rights): Option<Translation>
    decreases a.levels - l
  {
    if l >= a.levels then None
    else
      var e := Get(mem, frame, a.index(va, l));
      if !a.present(e) then None
      else if l == a.levels - 1 || a.isBlock(e) then
        Some(Translation(a.leafPa(e, l, va), Meet(rights, a.leafRights(e)), a.cache(e, l)))
      else WalkFrom(a, mem, a.addr(e), va, l + 1, Meet(rights, a.tableRights(e)))
  }

  function Translate(a: Arch, mem: Memory, root: Word, va: Word): Option<Translation> {
    WalkFrom(a, mem, root, va, 0, ALL)
  }

  // ---- Tables form a tree ----

  /** Where a table hangs: its level and the indices that lead to it from the root. */
  datatype Place = Place(level: nat, path: seq<Index>)

  type Homes = map<Word, Place>

  function Path(a: Arch, va: Word, l: nat): (p: seq<Index>)
    ensures |p| == l
    ensures forall k :: 0 <= k < l ==> p[k] == a.index(va, k)
  {
    seq(l, k requires 0 <= k => a.index(va, k))
  }

  predicate IsTable(a: Arch, e: Word) {
    a.present(e) && !a.isBlock(e)
  }

  /** Every table has one place: a table entry leads to the table whose place says so. */
  ghost predicate Homed(a: Arch, mem: Memory, root: Word, homes: Homes) {
    && root in homes && homes[root] == Place(0, [])
    && (forall f :: f in homes ==> homes[f].level < a.levels)
    && forall f, i {:trigger Get(mem, f, i)} :: f in homes && homes[f].level + 1 < a.levels && IsTable(a, Get(mem, f, i)) ==>
         a.addr(Get(mem, f, i)) in homes
         && homes[a.addr(Get(mem, f, i))] == Place(homes[f].level + 1, homes[f].path + [i])
  }

  lemma PathNext(a: Arch, va: Word, l: nat)
    ensures Path(a, va, l + 1) == Path(a, va, l) + [a.index(va, l)]
  {
  }

  /** `va` passes through slot `i` of the table at `p`. */
  predicate Passes(a: Arch, va: Word, p: Place, i: Index) {
    Path(a, va, p.level) == p.path && a.index(va, p.level) == i
  }

  /** A walk that does not pass through a slot does not depend on it. */
  lemma {:induction false} OtherSlot(a: Arch, mem: Memory, mem': Memory, root: Word, homes: Homes, frame: Word, va: Word,
                                     l: nat, rights: Rights, t: Word, i: Index)
    requires Homed(a, mem, root, homes) && frame in homes && t in homes
    requires homes[frame] == Place(l, Path(a, va, l))
    requires !Passes(a, va, homes[t], i)
    requires forall f, j :: f in homes && (f, j) != (t, i) ==> Get(mem', f, j) == Get(mem, f, j)
    ensures WalkFrom(a, mem', frame, va, l, rights) == WalkFrom(a, mem, frame, va, l, rights)
    decreases a.levels - l
  {
    var e := Get(mem, frame, a.index(va, l));
    assert (frame, a.index(va, l)) != (t, i);
    if a.present(e) && !(l == a.levels - 1 || a.isBlock(e)) {
      PathNext(a, va, l);
      OtherSlot(a, mem, mem', root, homes, a.addr(e), va, l + 1, Meet(rights, a.tableRights(e)), t, i);
    }
  }

  /** Changing a slot matters only for what the walk finds from its table on. */
  lemma {:induction false} SameFromTable(a: Arch, mem: Memory, mem': Memory, root: Word, homes: Homes, frame: Word, va: Word,
                                         l: nat, rights: Rights, t: Word, i: Index)
    requires Homed(a, mem, root, homes) && frame in homes && t in homes
    requires homes[frame] == Place(l, Path(a, va, l))
    requires forall f, j :: f in homes && (f, j) != (t, i) ==> Get(mem', f, j) == Get(mem, f, j)
    requires Passes(a, va, homes[t], i) ==>
               forall r :: WalkFrom(a, mem', t, va, homes[t].level, r) == WalkFrom(a, mem, t, va, homes[t].level, r)
    ensures WalkFrom(a, mem', frame, va, l, rights) == WalkFrom(a, mem, frame, va, l, rights)
    decreases a.levels - l
  {
    if !Passes(a, va, homes[t], i) {
      OtherSlot(a, mem, mem', root, homes, frame, va, l, rights, t, i);
    } else if frame != t {
      var e := Get(mem, frame, a.index(va, l));
      assert (frame, a.index(va, l)) != (t, i);
      if a.present(e) && !(l == a.levels - 1 || a.isBlock(e)) {
        PathNext(a, va, l);
        SameFromTable(a, mem, mem', root, homes, a.addr(e), va, l + 1, Meet(rights, a.tableRights(e)), t, i);
      }
    }
  }

  /** No address translates differently. */
  ghost predicate SameTranslations(a: Arch, mem: Memory, mem': Memory, root: Word) {
    forall va :: Translate(a, mem', root, va) == Translate(a, mem, root, va)
  }

  // ---- Growing the tree ----

  /** Table `n` holds the pieces of block `e` of level `l`. */
  ghost predicate HoldsPieces(a: Arch, mem: Memory, n: Word, e: Word, l: nat) {
    forall i :: Get(mem, n, i) == a.split(e, l + 1, i)
  }

  /** `mem'` is `mem` with the new table `n` hung into slot `i` of `t`. */
  ghost predicate Hangs(a: Arch, mem: Memory, mem': Memory, homes: Homes, t: Word, i: Index, n: Word) {
    && (forall f, j :: f in homes && (f, j) != (t, i) ==> Get(mem', f, j) == Get(mem, f, j))
    && Get(mem', t, i) == a.makeTable(n)
  }

  lemma MeetAll(r: Rights)
    ensures Meet(r, ALL) == r
  {
  }

  /** Hanging a zeroed table into an absent slot changes no translation. */
  lemma EmptyTableKeeps(a: Arch, mem: Memory, mem': Memory, root: Word, homes: Homes, t: Word, i: Index, n: Word)
    requires Lawful(a) && Homed(a, mem, root, homes) && t in homes && homes[t].level + 1 < a.levels
    requires n !in homes && a.isFrame(n) && !a.present(Get(mem, t, i))
    requires Hangs(a, mem, mem', homes, t, i, n) && forall j :: Get(mem', n, j) == ZERO
    ensures SameTranslations(a, mem, mem', root)
  {
    var l := homes[t].level;
    forall va
      ensures Translate(a, mem', root, va) == Translate(a, mem, root, va)
    {
      if Passes(a, va, homes[t], i) {
        forall r
          ensures WalkFrom(a, mem', t, va, l, r) == WalkFrom(a, mem, t, va, l, r)
        {
          assert WalkFrom(a, mem', n, va, l + 1, Meet(r, ALL)) == None;
        }
      }
      SameFromTable(a, mem, mem', root, homes, root, va, 0, ALL, t, i);
    }
  }

  /** Replacing a block by the table of its pieces changes no translation: not the physical
      address, not the rights, not the memory type. */
  lemma SplitKeeps(a: Arch, mem: Memory, mem': Memory, root: Word, homes: Homes, t: Word, i: Index, n: Word)
    requires Lawful(a) && Homed(a, mem, root, homes) && t in homes && homes[t].level + 1 < a.levels
    requires n !in homes && a.isFrame(n) && a.present(Get(mem, t, i)) && a.isBlock(Get(mem, t, i))
    requires Hangs(a, mem, mem', homes, t, i, n) && HoldsPieces(a, mem', n, Get(mem, t, i), homes[t].level)
    ensures SameTranslations(a, mem, mem', root)
  {
    hide SplitLaw, HoldsPieces;
    var l, e := homes[t].level, Get(mem, t, i);
    forall va
      ensures Translate(a, mem', root, va) == Translate(a, mem, root, va)
    {
      if Passes(a, va, homes[t], i) {
        forall r
          ensures WalkFrom(a, mem', t, va, l, r) == WalkFrom(a, mem, t, va, l, r)
        {
          PieceTranslates(a, mem', n, e, l, va, r);
          MeetAll(r);
        }
      }
      SameFromTable(a, mem, mem', root, homes, root, va, 0, ALL, t, i);
    }
  }

  /** A walk into the table of pieces ends where the block would have ended it. */
  lemma PieceTranslates(a: Arch, mem: Memory, n: Word, e: Word, l: nat, va: Word, r: Rights)
    requires Lawful(a) && l + 1 < a.levels && a.present(e) && a.isBlock(e)
    requires HoldsPieces(a, mem, n, e, l)
    ensures WalkFrom(a, mem, n, va, l + 1, r)
         == Some(Translation(a.leafPa(e, l, va), Meet(r, a.leafRights(e)), a.cache(e, l)))
  {
    assert PieceOk(a, e, l, va);
  }

  /** The pieces of a block are leaves. */
  lemma PiecesAreLeaves(a: Arch, mem: Memory, n: Word, e: Word, l: nat)
    requires Lawful(a) && l + 2 < a.levels && a.present(e) && a.isBlock(e) && HoldsPieces(a, mem, n, e, l)
    ensures forall j :: !IsTable(a, Get(mem, n, j))
  {
    forall j
      ensures !IsTable(a, Get(mem, n, j))
    {
      assert LeafPiece(a, e, l, j);
    }
  }

  /** The tree with one more table. */
  lemma HangKeepsHomed(a: Arch, mem: Memory, mem': Memory, root: Word, homes: Homes, t: Word, i: Index, n: Word)
    requires Lawful(a) && Homed(a, mem, root, homes) && t in homes && homes[t].level + 1 < a.levels
    requires n !in homes && a.isFrame(n) && !IsTable(a, Get(mem, t, i)) && Hangs(a, mem, mem', homes, t, i, n)
    requires homes[t].level + 2 < a.levels ==> forall j :: !IsTable(a, Get(mem', n, j))
    ensures Homed(a, mem', root, homes[n := Place(homes[t].level + 1, homes[t].path + [i])])
  {
  }

  // ---- Merging the rights of a page two segments share ----

  /** `user_page_perm`: a user page with the given rights. */
  function UserPerm(write: bool, execute: bool): bv32 {
    VM_USER | (if write then VM_WRITE else 0) | (if execute then 0 else VM_NOEXEC)
  }

  /** The request that adds the rights of `perm` to those of entry `e`. */
  function MergePerm(a: Arch, e: Word, perm: bv32): bv32 {
    UserPerm(a.leafRights(e).write || perm & VM_WRITE != 0, a.leafRights(e).execute || perm & VM_NOEXEC == 0)
  }

  lemma UserPermRights(write: bool, execute: bool)
    ensures PermRights(UserPerm(write, execute)) == Rights(true, true, write, execute)
  {
  }

  /** A rewritten entry keeps its frame and has the union of both rights. */
  lemma MergedRights(a: Arch, e: Word, perm: bv32)
    requires Lawful(a) && a.isFrame(a.addr(e))
    ensures var e' := a.makePage(a.addr(e), MergePerm(a, e, perm));
      && a.present(e') && a.addr(e') == a.addr(e)
      && a.leafRights(e') == Rights(true, true, a.leafRights(e).write || PermRights(perm).write, a.leafRights(e).execute || PermRights(perm).execute)
  {
    hide SplitLaw, TableLaw;
    assert PageOk(a, a.addr(e), MergePerm(a, e, perm));
    UserPermRights(a.leafRights(e).write || perm & VM_WRITE != 0, a.leafRights(e).execute || perm & VM_NOEXEC == 0);
  }
}
