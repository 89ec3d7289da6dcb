/** The page-table entry formats of the three architectures, bit by bit, and the laws they obey.
    The lemmas on single heights are kept apart and free of side conditions: each is then one
    closed bit-vector identity. */
module PageFormats {
  import opened PageTables

  // ---- Address arithmetic of a tree with 9 index bits per level above a 12-bit offset ----

  /** Table index at the height whose entries cover `1 << (12 + 9 * height)` bytes. */
  function IndexAt(va: bv64, height: nat): bv64 {
    (if height == 0 then va >> 12 else if height == 1 then va >> 21 else if height == 2 then va >> 30 else va >> 39) & 0x1FF
  }

  /** The address bits below an entry at `height`. */
  function OffsetMask(height: nat): bv64 {
    if height == 0 then 0xFFF else if height == 1 then 0x1F_FFFF else if height == 2 then 0x3FFF_FFFF else 0x7F_FFFF_FFFF
  }

  /** Where the `i`-th entry at `height` starts in its table's range. */
  function Scaled(i: bv64, height: nat): bv64 {
    if height == 0 then i << 12 else if height == 1 then i << 21 else i << 30
  }

  /** Where a leaf at `height` with address bits `base` sends `va`. */
  function Inside(base: bv64, height: nat, va: bv64): bv64 {
    (base & !OffsetMask(height)) + (va & OffsetMask(height))
  }

  /** Base address of the `i`-th piece, at `height`, of the block with address bits `base`. */
  function PieceBase(base: bv64, height: nat, i: bv64): bv64 {
    (base & !OffsetMask(height + 1)) + Scaled(i, height)
  }

  /** Height of a level in a tree of `levels` levels. */
  function Height(levels: nat, l: nat): nat {
    if l < levels then levels - 1 - l else 0
  }

  /** The nine index bits as a slot, and back. */
  function SlotAt(va: bv64, height: nat): Index {
    var i := IndexAt(va, height);
    NineBits(i);
    ToIndex(i as bv9)
  }

  function ToIndex(i: bv9): Index {
    i as Index
  }

  function ToBits(i: Index): bv64 {
    (i as bv9) as bv64
  }

  lemma NineBits(x: bv64)
    requires x == x & 0x1FF
    ensures x < 512 && (x as bv9) as bv64 == x
  {
  }

  lemma IndexRoundTrip(i: bv9)
    ensures ToIndex(i) as bv9 == i
  {
  }

  lemma SlotBits(va: bv64, height: nat)
    ensures ToBits(SlotAt(va, height)) == IndexAt(va, height)
  {
    hide IndexAt, ToIndex;
    var x := IndexAt(va, height);
    IndexMasked(va, height);
    NineBits(x);
    IndexRoundTrip(x as bv9);
  }

  lemma IndexMasked(va: bv64, height: nat)
    ensures IndexAt(va, height) == IndexAt(va, height) & 0x1FF
  {
  }

  // ---- x86-64 ----

  const X86_ADDR: bv64 := 0x000F_FFFF_FFFF_F000
  const X86_NX: bv64 := 0x8000_0000_0000_0000

  predicate X86Present(e: bv64) {
    e & 1 != 0
  }

  predicate X86Block(e: bv64) {
    e & 0x80 != 0
  }

  function X86MakeTable(pa: bv64): bv64 {
    pa | 7
  }

  function X86MakePage(pa: bv64, perm: bv32): bv64 {
    pa | 1 | (if perm & VM_WRITE != 0 then 2 else 0) | (if perm & VM_USER != 0 then 4 else 0)
    | (if perm & VM_NOCACHE != 0 then 0x18 else 0) | (if perm & VM_NOEXEC != 0 then X86_NX else 0)
  }

  /** A large page keeps its PAT bit in bit 12; in a 4 KB entry it takes the place of the page-size bit. */
  function X86SplitEntry(e: bv64, pa: bv64, height: nat): bv64 {
    var flags := e & !(X86_ADDR | 0x80);
    var pat := e & 0x1000 != 0;
    pa | flags | (if height > 0 then 0x80 | (if pat then 0x1000 else 0) else if pat then 0x80 else 0)
  }

  function X86Split(e: bv64, height: nat, i: bv64): bv64 {
    X86SplitEntry(e, PieceBase(e & X86_ADDR, height, i), height)
  }

  function X86LeafPa(e: bv64, height: nat, va: bv64): bv64 {
    Inside(e & X86_ADDR, height, va)
  }

  function X86Rights(e: bv64): Rights {
    Rights(e & 4 != 0, true, e & 2 != 0, e & X86_NX == 0)
  }

  /** The PAT index: PAT, PCD and PWT. */
  function X86Cache(e: bv64, height: nat): bv64 {
    (if (if height > 0 then e & 0x1000 else e & 0x80) != 0 then 4 else 0) | ((e & 0x18) >> 3)
  }

  const X86 := Arch(
    4,
    (va: Word, l: nat) => SlotAt(va.bits, Height(4, l)),
    (pa: Word) => pa.bits & !X86_ADDR == 0,
    (e: Word) => X86Present(e.bits),
    (e: Word) => X86Block(e.bits),
    (e: Word) => Word(e.bits & X86_ADDR),
    (pa: Word) => Word(X86MakeTable(pa.bits)),
    (pa: Word, perm: bv32) => Word(X86MakePage(pa.bits, perm)),
    (e: Word, l: nat, i: Index) => Word(X86Split(e.bits, Height(4, l), ToBits(i))),
    (e: Word, l: nat, va: Word) => Word(X86LeafPa(e.bits, Height(4, l), va.bits)),
    (e: Word) => X86Rights(e.bits),
    (e: Word) => X86Rights(e.bits),
    (e: Word, l: nat) => Word(X86Cache(e.bits, Height(4, l))),
    (uncached: bool) => Word(if uncached then 3 else 0),
    0x8000_0000_0000)

  lemma X86Piece0(e: bv64, va: bv64)
    ensures X86LeafPa(X86Split(e, 0, IndexAt(va, 0)), 0, va) == X86LeafPa(e, 1, va)
  {
  }

  lemma X86Flags0(e: bv64, i: bv9)
    requires X86Present(e) && X86Block(e)
    ensures var s := X86Split(e, 0, i as bv64);
      && X86Present(s)
      && X86Rights(s) == X86Rights(e) && X86Cache(s, 0) == X86Cache(e, 1)
  {
  }

  lemma X86Piece1(e: bv64, va: bv64)
    ensures X86LeafPa(X86Split(e, 1, IndexAt(va, 1)), 1, va) == X86LeafPa(e, 2, va)
  {
  }

  lemma X86Flags1(e: bv64, i: bv9)
    requires X86Present(e) && X86Block(e)
    ensures var s := X86Split(e, 1, i as bv64);
      && X86Present(s) && X86Block(s)
      && X86Rights(s) == X86Rights(e) && X86Cache(s, 1) == X86Cache(e, 2)
  {
  }

  lemma X86Piece2(e: bv64, va: bv64)
    ensures X86LeafPa(X86Split(e, 2, IndexAt(va, 2)), 2, va) == X86LeafPa(e, 3, va)
  {
  }

  lemma X86Flags2(e: bv64, i: bv9)
    requires X86Present(e) && X86Block(e)
    ensures var s := X86Split(e, 2, i as bv64);
      && X86Present(s) && X86Block(s)
      && X86Rights(s) == X86Rights(e) && X86Cache(s, 2) == X86Cache(e, 3)
  {
  }

  lemma X86PageBits(p: bv64, perm: bv32)
    ensures var e := X86MakePage(p & X86_ADDR, perm);
      && X86Present(e) && X86.addr(Word(e)) == Word(p & X86_ADDR) && X86Rights(e) == PermRights(perm)
      && Word(X86Cache(e, 0)) == X86.memory(perm & VM_NOCACHE != 0)
  {
  }

  lemma X86PagePa(p: bv64, perm: bv32, va: bv64)
    ensures X86LeafPa(X86MakePage(p & X86_ADDR, perm), 0, va) == (p & X86_ADDR) + (va & 0xFFF)
  {
  }

  lemma X86PageIn(p: bv64, perm: bv32, va: bv64)
    ensures Word(X86LeafPa(X86MakePage(p & X86_ADDR, perm), 0, va)) == InFrame(Word(p & X86_ADDR), Word(va))
  {
    hide X86LeafPa, X86MakePage;
    X86PagePa(p, perm, va);
  }

  lemma X86Frame(p: bv64)
    requires X86.isFrame(Word(p))
    ensures p & X86_ADDR == p
  {
  }

  /** The pieces of a block are leaves that send every address where the block sent it, with the
      same rights and the same memory type. */
  lemma X86Pieces(e: bv64, height: nat, va: bv64)
    requires height < 3 && X86Present(e) && X86Block(e)
    ensures var s := X86Split(e, height, IndexAt(va, height));
      && X86Present(s) && (height > 0 ==> X86Block(s))
      && X86LeafPa(s, height, va) == X86LeafPa(e, height + 1, va)
      && X86Rights(s) == X86Rights(e) && X86Cache(s, height) == X86Cache(e, height + 1)
  {
    hide X86LeafPa, X86Split, X86Rights, X86Cache, X86Present, X86Block, IndexAt;
    IndexMasked(va, height);
    NineBits(IndexAt(va, height));
    var i := IndexAt(va, height) as bv9;
    if height == 0 {
      X86Piece0(e, va);
      X86Flags0(e, i);
    } else if height == 1 {
      X86Piece1(e, va);
      X86Flags1(e, i);
    } else {
      X86Piece2(e, va);
      X86Flags2(e, i);
    }
  }

  lemma X86PieceOk(e: Word, l: nat, va: Word)
    ensures PieceOk(X86, e, l, va)
  {
    hide X86LeafPa, X86Split, X86Rights, X86Cache, X86Present, X86Block, IndexAt, SlotAt, ToBits;
    if l < 3 && X86.present(e) && X86.isBlock(e) {
      SlotBits(va.bits, 2 - l);
      X86Pieces(e.bits, 2 - l, va.bits);
    }
  }

  lemma X86LeafPiece(e: Word, l: nat, i: Index)
    ensures LeafPiece(X86, e, l, i)
  {
    hide X86LeafPa, X86Split, X86Rights, X86Cache, X86Present, X86Block;
    if l < 2 && X86.present(e) && X86.isBlock(e) {
      if l == 0 {
        X86Flags2(e.bits, i as bv9);
      } else {
        X86Flags1(e.bits, i as bv9);
      }
    }
  }

  lemma X86PageGoes(pa: Word, perm: bv32, va: Word)
    requires X86.isFrame(pa)
    ensures X86.leafPa(X86.makePage(pa, perm), 3, va) == InFrame(pa, va)
  {
    hide X86LeafPa, X86MakePage, InFrame;
    X86Frame(pa.bits);
    X86PageIn(pa.bits, perm, va.bits);
  }

  lemma X86PageOk(pa: Word, perm: bv32)
    ensures PageOk(X86, pa, perm)
  {
    hide X86LeafPa, X86MakePage, PermRights, X86Rights, X86Present, InFrame;
    if X86.isFrame(pa) {
      X86Frame(pa.bits);
      X86PageBits(pa.bits, perm);
      forall va {
        X86PageGoes(pa, perm, va);
      }
    }
  }

  lemma X86Lawful()
    ensures Lawful(X86)
  {
    hide X86LeafPa, X86Split, X86Cache, SlotAt, X86MakePage, PermRights, PieceOk, PageOk, LeafPiece;
    forall e, l: nat, i
      ensures LeafPiece(X86, e, l, i)
    {
      X86LeafPiece(e, l, i);
    }
    forall e, l: nat, va
      ensures PieceOk(X86, e, l, va)
    {
      X86PieceOk(e, l, va);
    }
    forall pa, perm
      ensures PageOk(X86, pa, perm)
    {
      X86PageOk(pa, perm);
    }
  }

  /** Every bit of a new page entry, by the Intel manual, volume 3, section 4.5: present, writable, user, uncached by PWT
      and PCD together, execute-disable, and zeros. */
  lemma X86EntryBits(p: bv64, perm: bv32)
    ensures var e := X86MakePage(p & 0x000F_FFFF_FFFF_F000, perm);
      && e & 0x000F_FFFF_FFFF_F000 == p & 0x000F_FFFF_FFFF_F000 && e & 1 == 1
      && e & 2 == (if perm & 2 != 0 then 2 else 0) && e & 4 == (if perm & 4 != 0 then 4 else 0)
      && e & 0x18 == (if perm & 8 != 0 then 0x18 else 0)
      && e & 0x8000_0000_0000_0000 == (if perm & 16 != 0 then 0x8000_0000_0000_0000 else 0)
      && e & 0x7FF0_0000_0000_0FE0 == 0
  {
  }

  /** A piece of a block has its other bits: accessed, dirty, global and those for software. */
  lemma X86PieceBits0(e: bv64, pa: bv64)
    ensures X86SplitEntry(e, pa & 0x000F_FFFF_FFFF_F000, 0) & 0xFFF0_0000_0000_0F7F == e & 0xFFF0_0000_0000_0F7F
  {
  }

  lemma X86PieceBits1(e: bv64, pa: bv64)
    ensures X86SplitEntry(e, pa & 0x000F_FFFF_FFFF_F000, 1) & 0xFFF0_0000_0000_0F7F == e & 0xFFF0_0000_0000_0F7F
  {
  }

  /** Where the manual puts the bits that are read: P, PS, U/S, R/W and XD, and the PAT index of a page and of a block. */
  lemma X86Reads(e: bv64)
    ensures (X86Present(e) <==> (e >> 0) & 1 == 1) && (X86Block(e) <==> (e >> 7) & 1 == 1)
    ensures X86Rights(e) == Rights((e >> 2) & 1 == 1, true, (e >> 1) & 1 == 1, (e >> 63) & 1 == 0)
    ensures X86Cache(e, 0) == (((e >> 7) & 1) << 2) | (((e >> 4) & 1) << 1) | ((e >> 3) & 1)
    ensures X86Cache(e, 1) == (((e >> 12) & 1) << 2) | (((e >> 4) & 1) << 1) | ((e >> 3) & 1)
    ensures X86Cache(e, 2) == X86Cache(e, 1)
  {
  }

  // ---- AArch64 ----

  const ARM_ADDR: bv64 := 0x0000_FFFF_FFFF_F000

  predicate ArmPresent(e: bv64) {
    e & 1 != 0
  }

  predicate ArmBlock(e: bv64) {
    e & 3 == 1
  }

  function ArmMakeTable(pa: bv64): bv64 {
    pa | 3
  }

  function ArmMakePage(pa: bv64, perm: bv32): bv64 {
    pa | 0x403 | (if perm & VM_WRITE == 0 then 0x80 else 0) | (if perm & VM_USER != 0 then 0x20_0000_0000_0040 else 0)
    | (if perm & VM_NOEXEC != 0 then 0x60_0000_0000_0000 else 0) | (if perm & VM_NOCACHE != 0 then 4 else 0)
  }

  function ArmSplitEntry(e: bv64, pa: bv64, height: nat): bv64 {
    pa | (e & !(ARM_ADDR | 3)) | 1 | (if height == 0 then 2 else 0)
  }

  function ArmSplit(e: bv64, height: nat, i: bv64): bv64 {
    ArmSplitEntry(e, PieceBase(e & ARM_ADDR, height, i), height)
  }

  function ArmLeafPa(e: bv64, height: nat, va: bv64): bv64 {
    Inside(e & ARM_ADDR, height, va)
  }

  function ArmRights(e: bv64): Rights {
    Rights(e & 0x40 != 0, true, e & 0x80 == 0, e & 0x40_0000_0000_0000 == 0)
  }

  /** APTable restrictions; the kernel never sets the execute-never bits of a table entry. */
  function ArmTableRights(e: bv64): Rights {
    Rights(e & 0x2000_0000_0000_0000 == 0, true, e & 0x4000_0000_0000_0000 == 0, true)
  }

  /** The memory attribute index. */
  function ArmCache(e: bv64, height: nat): bv64 {
    (e & 0x1C) >> 2
  }

  const ARM := Arch(
    4,
    (va: Word, l: nat) => SlotAt(va.bits, Height(4, l)),
    (pa: Word) => pa.bits & !ARM_ADDR == 0,
    (e: Word) => ArmPresent(e.bits),
    (e: Word) => ArmBlock(e.bits),
    (e: Word) => Word(e.bits & ARM_ADDR),
    (pa: Word) => Word(ArmMakeTable(pa.bits)),
    (pa: Word, perm: bv32) => Word(ArmMakePage(pa.bits, perm)),
    (e: Word, l: nat, i: Index) => Word(ArmSplit(e.bits, Height(4, l), ToBits(i))),
    (e: Word, l: nat, va: Word) => Word(ArmLeafPa(e.bits, Height(4, l), va.bits)),
    (e: Word) => ArmRights(e.bits),
    (e: Word) => ArmTableRights(e.bits),
    (e: Word, l: nat) => Word(ArmCache(e.bits, Height(4, l))),
    (uncached: bool) => Word(if uncached then 1 else 0),
    0x8000_0000_0000)

  lemma ArmPiece0(e: bv64, va: bv64)
    ensures ArmLeafPa(ArmSplit(e, 0, IndexAt(va, 0)), 0, va) == ArmLeafPa(e, 1, va)
  {
  }

  lemma ArmFlags0(e: bv64, i: bv9)
    requires ArmPresent(e) && ArmBlock(e)
    ensures var s := ArmSplit(e, 0, i as bv64);
      && ArmPresent(s)
      && ArmRights(s) == ArmRights(e) && ArmCache(s, 0) == ArmCache(e, 1)
  {
  }

  lemma ArmPiece1(e: bv64, va: bv64)
    ensures ArmLeafPa(ArmSplit(e, 1, IndexAt(va, 1)), 1, va) == ArmLeafPa(e, 2, va)
  {
  }

  lemma ArmFlags1(e: bv64, i: bv9)
    requires ArmPresent(e) && ArmBlock(e)
    ensures var s := ArmSplit(e, 1, i as bv64);
      && ArmPresent(s) && ArmBlock(s)
      && ArmRights(s) == ArmRights(e) && ArmCache(s, 1) == ArmCache(e, 2)
  {
  }

  lemma ArmPiece2(e: bv64, va: bv64)
    ensures ArmLeafPa(ArmSplit(e, 2, IndexAt(va, 2)), 2, va) == ArmLeafPa(e, 3, va)
  {
  }

  lemma ArmFlags2(e: bv64, i: bv9)
    requires ArmPresent(e) && ArmBlock(e)
    ensures var s := ArmSplit(e, 2, i as bv64);
      && ArmPresent(s) && ArmBlock(s)
      && ArmRights(s) == ArmRights(e) && ArmCache(s, 2) == ArmCache(e, 3)
  {
  }

  lemma ArmPageBits(p: bv64, perm: bv32)
    ensures var e := ArmMakePage(p & ARM_ADDR, perm);
      && ArmPresent(e) && ARM.addr(Word(e)) == Word(p & ARM_ADDR) && ArmRights(e) == PermRights(perm)
      && Word(ArmCache(e, 0)) == ARM.memory(perm & VM_NOCACHE != 0)
  {
  }

  lemma ArmPagePa(p: bv64, perm: bv32, va: bv64)
    ensures ArmLeafPa(ArmMakePage(p & ARM_ADDR, perm), 0, va) == (p & ARM_ADDR) + (va & 0xFFF)
  {
  }

  lemma ArmPageIn(p: bv64, perm: bv32, va: bv64)
    ensures Word(ArmLeafPa(ArmMakePage(p & ARM_ADDR, perm), 0, va)) == InFrame(Word(p & ARM_ADDR), Word(va))
  {
    hide ArmLeafPa, ArmMakePage;
    ArmPagePa(p, perm, va);
  }

  lemma ArmFrame(p: bv64)
    requires ARM.isFrame(Word(p))
    ensures p & ARM_ADDR == p
  {
  }

  /** The pieces of a block are leaves that send every address where the block sent it, with the
      same rights and the same memory type. */
  lemma ArmPieces(e: bv64, height: nat, va: bv64)
    requires height < 3 && ArmPresent(e) && ArmBlock(e)
    ensures var s := ArmSplit(e, height, IndexAt(va, height));
      && ArmPresent(s) && (height > 0 ==> ArmBlock(s))
      && ArmLeafPa(s, height, va) == ArmLeafPa(e, height + 1, va)
      && ArmRights(s) == ArmRights(e) && ArmCache(s, height) == ArmCache(e, height + 1)
  {
    hide ArmLeafPa, ArmSplit, ArmRights, ArmCache, ArmPresent, ArmBlock, IndexAt;
    IndexMasked(va, height);
    NineBits(IndexAt(va, height));
    var i := IndexAt(va, height) as bv9;
    if height == 0 {
      ArmPiece0(e, va);
      ArmFlags0(e, i);
    } else if height == 1 {
      ArmPiece1(e, va);
      ArmFlags1(e, i);
    } else {
      ArmPiece2(e, va);
      ArmFlags2(e, i);
    }
  }

  lemma ArmPieceOk(e: Word, l: nat, va: Word)
    ensures PieceOk(ARM, e, l, va)
  {
    hide ArmLeafPa, ArmSplit, ArmRights, ArmCache, ArmPresent, ArmBlock, IndexAt, SlotAt, ToBits;
    if l < 3 && ARM.present(e) && ARM.isBlock(e) {
      SlotBits(va.bits, 2 - l);
      ArmPieces(e.bits, 2 - l, va.bits);
    }
  }

  lemma ArmLeafPiece(e: Word, l: nat, i: Index)
    ensures LeafPiece(ARM, e, l, i)
  {
    hide ArmLeafPa, ArmSplit, ArmRights, ArmCache, ArmPresent, ArmBlock;
    if l < 2 && ARM.present(e) && ARM.isBlock(e) {
      if l == 0 {
        ArmFlags2(e.bits, i as bv9);
      } else {
        ArmFlags1(e.bits, i as bv9);
      }
    }
  }

  lemma ArmPageGoes(pa: Word, perm: bv32, va: Word)
    requires ARM.isFrame(pa)
    ensures ARM.leafPa(ARM.makePage(pa, perm), 3, va) == InFrame(pa, va)
  {
    hide ArmLeafPa, ArmMakePage, InFrame;
    ArmFrame(pa.bits);
    ArmPageIn(pa.bits, perm, va.bits);
  }

  lemma ArmPageOk(pa: Word, perm: bv32)
    ensures PageOk(ARM, pa, perm)
  {
    hide ArmLeafPa, ArmMakePage, PermRights, ArmRights, ArmPresent, InFrame;
    if ARM.isFrame(pa) {
      ArmFrame(pa.bits);
      ArmPageBits(pa.bits, perm);
      forall va {
        ArmPageGoes(pa, perm, va);
      }
    }
  }

  lemma ArmLawful()
    ensures Lawful(ARM)
  {
    hide ArmLeafPa, ArmSplit, ArmCache, SlotAt, ArmMakePage, PermRights, PieceOk, PageOk, LeafPiece;
    forall e, l: nat, i
      ensures LeafPiece(ARM, e, l, i)
    {
      ArmLeafPiece(e, l, i);
    }
    forall e, l: nat, va
      ensures PieceOk(ARM, e, l, va)
    {
      ArmPieceOk(e, l, va);
    }
    forall pa, perm
      ensures PageOk(ARM, pa, perm)
    {
      ArmPageOk(pa, perm);
    }
  }

  /** Every bit of a new page descriptor, by the Arm manual, section D8.3: page, memory attribute index 1 for devices,
      user, read-only, access flag, privileged and unprivileged execute-never, and zeros. */
  lemma ArmEntryBits(p: bv64, perm: bv32)
    ensures var e := ArmMakePage(p & 0x0000_FFFF_FFFF_F000, perm);
      && e & 0x0000_FFFF_FFFF_F000 == p & 0x0000_FFFF_FFFF_F000 && e & 3 == 3
      && e & 0x1C == (if perm & 8 != 0 then 4 else 0)
      && e & 0x40 == (if perm & 4 != 0 then 0x40 else 0) && e & 0x80 == (if perm & 2 != 0 then 0 else 0x80)
      && e & 0x400 == 0x400
      && e & 0x20_0000_0000_0000 == (if perm & 4 != 0 || perm & 16 != 0 then 0x20_0000_0000_0000 else 0)
      && e & 0x40_0000_0000_0000 == (if perm & 16 != 0 then 0x40_0000_0000_0000 else 0)
      && e & 0xFF9F_0000_0000_0B00 == 0
  {
  }

  /** A piece of a block has its attributes: all bits but the address and the descriptor type. */
  lemma ArmPieceBits0(e: bv64, pa: bv64)
    ensures ArmSplitEntry(e, pa & 0x0000_FFFF_FFFF_F000, 0) & 0xFFFF_0000_0000_0FFC == e & 0xFFFF_0000_0000_0FFC
  {
  }

  lemma ArmPieceBits1(e: bv64, pa: bv64)
    ensures ArmSplitEntry(e, pa & 0x0000_FFFF_FFFF_F000, 1) & 0xFFFF_0000_0000_0FFC == e & 0xFFFF_0000_0000_0FFC
  {
  }

  /** Where the manual puts the bits that are read: the descriptor type, AP[1], AP[2], UXN, AttrIndx and APTable. */
  lemma ArmReads(e: bv64)
    ensures (ArmPresent(e) <==> (e >> 0) & 1 == 1) && (ArmBlock(e) <==> (e >> 0) & 1 == 1 && (e >> 1) & 1 == 0)
    ensures ArmRights(e) == Rights((e >> 6) & 1 == 1, true, (e >> 7) & 1 == 0, (e >> 54) & 1 == 0)
    ensures ArmTableRights(e) == Rights((e >> 61) & 1 == 0, true, (e >> 62) & 1 == 0, true)
    ensures ArmCache(e, 0) == (e >> 2) & 7 && ArmCache(e, 1) == (e >> 2) & 7 && ArmCache(e, 2) == (e >> 2) & 7
  {
  }

  // ---- RISC-V Sv39 ----

  function SvAddr(e: bv64): bv64 {
    (e >> 10) << 12
  }

  predicate SvPresent(e: bv64) {
    e & 1 != 0
  }

  predicate SvBlock(e: bv64) {
    e & 0xE != 0
  }

  function SvMakeTable(pa: bv64): bv64 {
    ((pa >> 12) << 10) | 1
  }

  function SvMakePage(pa: bv64, perm: bv32): bv64 {
    ((pa >> 12) << 10) | 0xC3 | (if perm & VM_WRITE != 0 then 4 else 0) | (if perm & VM_USER != 0 then 0x10 else 0)
    | (if perm & VM_NOEXEC == 0 then 8 else 0)
  }

  function SvSplit(e: bv64, height: nat, i: bv64): bv64 {
    ((PieceBase(SvAddr(e), height, i) >> 12) << 10) | (e & 0x3FF)
  }

  function SvLeafPa(e: bv64, height: nat, va: bv64): bv64 {
    Inside(SvAddr(e), height, va)
  }

  function SvRights(e: bv64): Rights {
    Rights(e & 0x10 != 0, e & 2 != 0, e & 4 != 0, e & 8 != 0)
  }

  /** Sv39 keeps no memory type in its entries. */
  function SvCache(e: bv64, height: nat): bv64 {
    0
  }

  const SV39 := Arch(
    3,
    (va: Word, l: nat) => SlotAt(va.bits, Height(3, l)),
    (pa: Word) => pa.bits & 0xFFF == 0,
    (e: Word) => SvPresent(e.bits),
    (e: Word) => SvBlock(e.bits),
    (e: Word) => Word(SvAddr(e.bits)),
    (pa: Word) => Word(SvMakeTable(pa.bits)),
    (pa: Word, perm: bv32) => Word(SvMakePage(pa.bits, perm)),
    (e: Word, l: nat, i: Index) => Word(SvSplit(e.bits, Height(3, l), ToBits(i))),
    (e: Word, l: nat, va: Word) => Word(SvLeafPa(e.bits, Height(3, l), va.bits)),
    (e: Word) => SvRights(e.bits),
    (e: Word) => ALL,
    (e: Word, l: nat) => Word(SvCache(e.bits, Height(3, l))),
    (uncached: bool) => Word(0),
    0x40_0000_0000)

  lemma SvPiece0(e: bv64, va: bv64)
    ensures SvLeafPa(SvSplit(e, 0, IndexAt(va, 0)), 0, va) == SvLeafPa(e, 1, va)
  {
  }

  lemma SvFlags0(e: bv64, i: bv9)
    requires SvPresent(e) && SvBlock(e)
    ensures var s := SvSplit(e, 0, i as bv64);
      && SvPresent(s)
      && SvRights(s) == SvRights(e) && SvCache(s, 0) == SvCache(e, 1)
  {
  }

  lemma SvPiece1(e: bv64, va: bv64)
    ensures SvLeafPa(SvSplit(e, 1, IndexAt(va, 1)), 1, va) == SvLeafPa(e, 2, va)
  {
  }

  lemma SvFlags1(e: bv64, i: bv9)
    requires SvPresent(e) && SvBlock(e)
    ensures var s := SvSplit(e, 1, i as bv64);
      && SvPresent(s) && SvBlock(s)
      && SvRights(s) == SvRights(e) && SvCache(s, 1) == SvCache(e, 2)
  {
  }

  lemma SvPageBits(p: bv64, perm: bv32)
    ensures var e := SvMakePage(p & 0xFFFF_FFFF_FFFF_F000, perm);
      && SvPresent(e) && SV39.addr(Word(e)) == Word(p & 0xFFFF_FFFF_FFFF_F000) && SvRights(e) == PermRights(perm)
      && Word(SvCache(e, 0)) == SV39.memory(perm & VM_NOCACHE != 0)
  {
  }

  lemma SvPagePa(p: bv64, perm: bv32, va: bv64)
    ensures SvLeafPa(SvMakePage(p & 0xFFFF_FFFF_FFFF_F000, perm), 0, va) == (p & 0xFFFF_FFFF_FFFF_F000) + (va & 0xFFF)
  {
  }

  lemma SvPageIn(p: bv64, perm: bv32, va: bv64)
    ensures Word(SvLeafPa(SvMakePage(p & 0xFFFF_FFFF_FFFF_F000, perm), 0, va)) == InFrame(Word(p & 0xFFFF_FFFF_FFFF_F000), Word(va))
  {
    hide SvLeafPa, SvMakePage;
    SvPagePa(p, perm, va);
  }

  lemma SvFrame(p: bv64)
    requires SV39.isFrame(Word(p))
    ensures p & 0xFFFF_FFFF_FFFF_F000 == p
  {
  }

  /** The pieces of a block are leaves that send every address where the block sent it, with the
      same rights and the same memory type. */
  lemma SvPieces(e: bv64, height: nat, va: bv64)
    requires height < 2 && SvPresent(e) && SvBlock(e)
    ensures var s := SvSplit(e, height, IndexAt(va, height));
      && SvPresent(s) && (height > 0 ==> SvBlock(s))
      && SvLeafPa(s, height, va) == SvLeafPa(e, height + 1, va)
      && SvRights(s) == SvRights(e) && SvCache(s, height) == SvCache(e, height + 1)
  {
    hide SvLeafPa, SvSplit, SvRights, SvCache, SvPresent, SvBlock, IndexAt;
    IndexMasked(va, height);
    NineBits(IndexAt(va, height));
    var i := IndexAt(va, height) as bv9;
    if height == 0 {
      SvPiece0(e, va);
      SvFlags0(e, i);
    } else {
      SvPiece1(e, va);
      SvFlags1(e, i);
    }
  }

  lemma SvPieceOk(e: Word, l: nat, va: Word)
    ensures PieceOk(SV39, e, l, va)
  {
    hide SvLeafPa, SvSplit, SvRights, SvCache, SvPresent, SvBlock, IndexAt, SlotAt, ToBits, SvAddr, SvMakeTable, SvMakePage;
    if l < 2 && SV39.present(e) && SV39.isBlock(e) {
      SlotBits(va.bits, 1 - l);
      SvPieces(e.bits, 1 - l, va.bits);
    }
  }

  lemma SvLeafPiece(e: Word, l: nat, i: Index)
    ensures LeafPiece(SV39, e, l, i)
  {
    hide SvLeafPa, SvSplit, SvRights, SvCache, SvPresent, SvBlock;
    if l < 1 && SV39.present(e) && SV39.isBlock(e) {
      SvFlags1(e.bits, i as bv9);
    }
  }

  lemma SvPageGoes(pa: Word, perm: bv32, va: Word)
    requires SV39.isFrame(pa)
    ensures SV39.leafPa(SV39.makePage(pa, perm), 2, va) == InFrame(pa, va)
  {
    hide SvLeafPa, SvMakePage, InFrame;
    SvFrame(pa.bits);
    SvPageIn(pa.bits, perm, va.bits);
  }

  lemma SvPageParts(pa: Word, perm: bv32)
    requires SV39.isFrame(pa)
    ensures var e := SV39.makePage(pa, perm);
      && SV39.present(e) && SV39.addr(e) == pa && SV39.leafRights(e) == PermRights(perm)
      && SV39.cache(e, 2) == SV39.memory(perm & VM_NOCACHE != 0)
  {
    hide SvMakePage, PermRights, SvRights, SvPresent, SvAddr;
    SvFrame(pa.bits);
    SvPageBits(pa.bits, perm);
  }

  lemma SvPageOk(pa: Word, perm: bv32)
    ensures PageOk(SV39, pa, perm)
  {
    hide SvLeafPa, SvMakePage, PermRights, SvRights, SvPresent, InFrame, SvAddr, SvCache;
    if SV39.isFrame(pa) {
      SvPageParts(pa, perm);
      forall va {
        SvPageGoes(pa, perm, va);
      }
    }
  }

  lemma SvLawful()
    ensures Lawful(SV39)
  {
    hide SvLeafPa, SvSplit, SvCache, SlotAt, SvMakePage, PermRights, PieceOk, PageOk, LeafPiece;
    forall e, l: nat, i
      ensures LeafPiece(SV39, e, l, i)
    {
      SvLeafPiece(e, l, i);
    }
    forall e, l: nat, va
      ensures PieceOk(SV39, e, l, va)
    {
      SvPieceOk(e, l, va);
    }
    forall pa, perm
      ensures PageOk(SV39, pa, perm)
    {
      SvPageOk(pa, perm);
    }
  }

  /** Every bit of a new page entry, by the RISC-V privileged manual, section 4.4: the page number from bit 10 on, then
      valid, readable, writable, executable, user, not global, accessed, dirty, and zeros. */
  lemma SvEntryBits(p: bv64, perm: bv32)
    ensures var e := SvMakePage(p & 0xFFFF_FFFF_FFFF_F000, perm);
      && e >> 10 == p >> 12 && e & 1 == 1 && e & 2 == 2
      && e & 4 == (if perm & 2 != 0 then 4 else 0) && e & 8 == (if perm & 16 != 0 then 0 else 8)
      && e & 0x10 == (if perm & 4 != 0 then 0x10 else 0) && e & 0xC0 == 0xC0 && e & 0x320 == 0
  {
  }

  /** A piece of a block has its ten flag bits. */
  lemma SvPieceBits(e: bv64, i: bv9)
    ensures SvSplit(e, 0, i as bv64) & 0x3FF == e & 0x3FF && SvSplit(e, 1, i as bv64) & 0x3FF == e & 0x3FF
  {
  }

  /** Where the manual puts the bits that are read: V; R, W and X, one of which marks a leaf; and U. */
  lemma SvReads(e: bv64)
    ensures (SvPresent(e) <==> (e >> 0) & 1 == 1) && (SvBlock(e) <==> (e >> 1) & 7 != 0)
    ensures SvRights(e) == Rights((e >> 4) & 1 == 1, (e >> 1) & 1 == 1, (e >> 2) & 1 == 1, (e >> 3) & 1 == 1)
    ensures SvAddr(e) == (e >> 10) * 4096
  {
  }

  // The table entries: every right on x86-64, a table descriptor on AArch64, a pointer on Sv39.

  lemma X86TableBits(p: bv64)
    ensures X86MakeTable(p & 0x000F_FFFF_FFFF_F000) & 0xFFF == 7
    ensures X86MakeTable(p & 0x000F_FFFF_FFFF_F000) & 0xFFFF_FFFF_FFFF_F000 == p & 0x000F_FFFF_FFFF_F000
  {
  }

  lemma ArmTableBits(p: bv64)
    ensures ArmMakeTable(p & 0x0000_FFFF_FFFF_F000) & 0xFFF == 3
    ensures ArmMakeTable(p & 0x0000_FFFF_FFFF_F000) & 0xFFFF_FFFF_FFFF_F000 == p & 0x0000_FFFF_FFFF_F000
  {
  }

  lemma SvTableBits(p: bv64)
    ensures SvMakeTable(p & 0xFFFF_FFFF_FFFF_F000) & 0x3FF == 1 && SvMakeTable(p & 0xFFFF_FFFF_FFFF_F000) >> 10 == p >> 12
  {
  }

  /** The addresses of frames: whole pages, below 2^52 on x86-64 and 2^48 on AArch64. */
  lemma FrameBits(x: bv64)
    ensures X86.isFrame(Word(x)) <==> x & 0xFFF == 0 && x < 0x10_0000_0000_0000
    ensures ARM.isFrame(Word(x)) <==> x & 0xFFF == 0 && x < 0x1_0000_0000_0000
    ensures SV39.isFrame(Word(x)) <==> x & 0xFFF == 0
  {
  }

  /** User space: 47 bits of addresses on x86-64 and AArch64, 38 on Sv39. */
  lemma UserTops()
    ensures X86.userTop == 1 << 47 && ARM.userTop == 1 << 47 && SV39.userTop == 1 << 38
    ensures X86.levels == 4 && ARM.levels == 4 && SV39.levels == 3
  {
  }

  /** The table indices of an address: nine bits each, from bit 39 or 30 down to bit 12. */
  lemma IndexBits(va: bv64)
    ensures IndexAt(va, 0) == (va >> 12) & 0x1FF && IndexAt(va, 1) == (va >> 21) & 0x1FF
    ensures IndexAt(va, 2) == (va >> 30) & 0x1FF && IndexAt(va, 3) == (va >> 39) & 0x1FF
    ensures X86.index(Word(va), 0) == SlotAt(va, 3) && X86.index(Word(va), 3) == SlotAt(va, 0)
    ensures ARM.index(Word(va), 0) == SlotAt(va, 3) && ARM.index(Word(va), 3) == SlotAt(va, 0)
    ensures SV39.index(Word(va), 0) == SlotAt(va, 2) && SV39.index(Word(va), 2) == SlotAt(va, 0)
  {
  }
}
