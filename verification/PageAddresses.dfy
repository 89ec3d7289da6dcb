/** Page numbers as addresses, and how the page tables of the three architectures tell them apart. */
module PageAddresses {
  import opened PageTables
  import opened PageFormats
  import opened AddressSpaces
  import opened UserSpaces
  import opened UserImages
  import opened UserFrames
  import opened SwapEntries
  import opened SwapTables

  // ---- Addresses by their index digits ----

  /** The nine index bits of page number `p` at `height`. */
  function Digit(p: nat, height: nat): Index {
    if height == 0 then (p % 512) as Index
    else if height == 1 then (p / 512 % 512) as Index
    else if height == 2 then (p / 0x4_0000 % 512) as Index
    else (p / 0x800_0000 % 512) as Index
  }

  function Composed(top: bv16, i3: bv9, i2: bv9, i1: bv9, i0: bv9): bv64 {
    (top as bv64 << 48) | (i3 as bv64 << 39) | (i2 as bv64 << 30) | (i1 as bv64 << 21) | (i0 as bv64 << 12)
  }

  function Wide(i: bv9): bv64 {
    i as bv64
  }

  function DigitBits(p: nat, height: nat): bv9 {
    Digit(p, height) as bv9
  }

  function Top(p: nat): bv16 {
    (p / 0x10_0000_0000 % 0x1_0000) as bv16
  }

  /** The address of page number `p`. */
  function PageAddress(p: nat): Word {
    Word(Composed(Top(p), DigitBits(p, 3), DigitBits(p, 2), DigitBits(p, 1), DigitBits(p, 0)))
  }

  lemma ComposedIndex(top: bv16, i3: bv9, i2: bv9, i1: bv9, i0: bv9)
    ensures IndexAt(Composed(top, i3, i2, i1, i0), 0) == Wide(i0)
    ensures IndexAt(Composed(top, i3, i2, i1, i0), 1) == Wide(i1)
    ensures IndexAt(Composed(top, i3, i2, i1, i0), 2) == Wide(i2)
    ensures IndexAt(Composed(top, i3, i2, i1, i0), 3) == Wide(i3)
  {
  }

  lemma BackToIndex(i: Index)
    ensures ToIndex(i as bv9) == i
  {
  }

  lemma Widened(i: bv9)
    ensures (i as bv64) == (i as bv64) & 0x1FF && (i as bv64) as bv9 == i
  {
  }

  lemma SlotIs(bits: bv64, height: nat, i: Index)
    requires IndexAt(bits, height) == (i as bv9) as bv64
    ensures SlotAt(bits, height) == i
  {
    hide IndexAt, ToIndex;
    Widened(i as bv9);
    BackToIndex(i);
  }

  lemma DigitSlot(bits: bv64, p: nat, height: nat)
    requires IndexAt(bits, height) == Wide(DigitBits(p, height))
    ensures SlotAt(bits, height) == Digit(p, height)
  {
    hide IndexAt, Digit, SlotAt;
    SlotIs(bits, height, Digit(p, height));
  }

  /** A walk for page `p` goes through the digits of `p`. */
  lemma AddressSlots(p: nat, height: nat)
    requires height < 4
    ensures SlotAt(PageAddress(p).bits, height) == Digit(p, height)
  {
    hide Composed, IndexAt, Digit, ToIndex, Top, SlotAt, DigitBits, Wide;
    ComposedIndex(Top(p), DigitBits(p, 3), DigitBits(p, 2), DigitBits(p, 1), DigitBits(p, 0));
    DigitSlot(PageAddress(p).bits, p, height);
  }

  lemma ComposedEnds(top: bv16, i3: bv9, i2: bv9, i1: bv9, i0: bv9)
    ensures Composed(top, i3, i2, i1, i0) >> 48 == top as bv64 && Composed(top, i3, i2, i1, i0) & 0xFFF == 0
  {
  }

  lemma TopIs(p: nat)
    requires p < 0x10_0000_0000_0000
    ensures Top(p) == (p / 0x10_0000_0000) as bv16
  {
    assert p / 0x10_0000_0000 % 0x1_0000 == p / 0x10_0000_0000;
  }

  /** A page number is its digits below the sixteen bits on top of its address, which ends in twelve zeros. */
  lemma PageParts(p: nat)
    requires p < 0x10_0000_0000_0000
    ensures PageAddress(p).bits >> 48 == ((p / 0x10_0000_0000) as bv16) as bv64 && PageAddress(p).bits & 0xFFF == 0
    ensures p == p / 0x10_0000_0000 * 0x10_0000_0000 + (Digit(p, 3) as int) * 0x800_0000 + (Digit(p, 2) as int) * 0x4_0000
                 + (Digit(p, 1) as int) * 512 + (Digit(p, 0) as int)
  {
    hide Composed, Top, DigitBits;
    ComposedEnds(Top(p), DigitBits(p, 3), DigitBits(p, 2), DigitBits(p, 1), DigitBits(p, 0));
    TopIs(p);
    Digits(p);
    assert p / 0x800_0000 == p / 0x10_0000_0000 * 512 + p / 0x800_0000 % 512;
  }

  // ---- Different pages ----

  /** Page numbers with the same digits and the same bits above them are the same. */
  lemma DigitsTell(p: nat, q: nat)
    requires Digit(p, 0) == Digit(q, 0) && Digit(p, 1) == Digit(q, 1) && Digit(p, 2) == Digit(q, 2)
    requires p / 0x800_0000 == q / 0x800_0000
    ensures p == q
  {
    Digits(p);
    Digits(q);
  }

  lemma Digits(p: nat)
    ensures p == (p / 0x800_0000) * 0x800_0000 + (p / 0x4_0000 % 512) * 0x4_0000 + (p / 512 % 512) * 512 + p % 512
  {
    assert p / 0x4_0000 == p / 512 / 512;
    assert p / 0x800_0000 == p / 0x4_0000 / 512;
  }

  /** The page tables see page numbers through their digits. */
  lemma SeesDigits(a: Arch, p: nat, q: nat, l: nat)
    requires a in {X86, ARM, SV39} && l < a.levels && SamePage(a, PageAddress(p), PageAddress(q))
    ensures Digit(p, a.levels - 1 - l) == Digit(q, a.levels - 1 - l)
  {
    hide SlotAt, PageAddress, Digit;
    AddressSlots(p, a.levels - 1 - l);
    AddressSlots(q, a.levels - 1 - l);
    assert Path(a, PageAddress(p), a.levels)[l] == Path(a, PageAddress(q), a.levels)[l];
  }

  // ---- User pages ----

  /** The user pages of an architecture, below `USER_SPACE_TOP`. */
  function UserTop(a: Arch): nat {
    if a.levels == 3 then 0x400_0000 else 0x8_0000_0000
  }

  lemma UserDigit(a: Arch, p: nat)
    requires a in {X86, ARM, SV39} && p < UserTop(a)
    ensures Digit(p, a.levels - 1) < 256
  {
    assert p / 0x4_0000 < 256 || p / 0x800_0000 < 256;
  }

  /** User pages go through the lower half of the root, and no two look the same. */
  lemma UserPagesDiffer(a: Arch)
    requires a in {X86, ARM, SV39}
    ensures UserAddresses(a, PageAddress, UserTop(a))
  {
    hide SamePage, PageAddress, Digit, SlotAt;
    forall p | 0 <= p < UserTop(a)
      ensures UserVa(a, PageAddress(p))
    {
      UserDigit(a, p);
      AddressSlots(p, a.levels - 1);
    }
    forall p, q | 0 <= p < UserTop(a) && 0 <= q < UserTop(a) && SamePage(a, PageAddress(p), PageAddress(q))
      ensures p == q
    {
      UserPageTold(a, p, q);
    }
  }

  lemma UserPageTold(a: Arch, p: nat, q: nat)
    requires a in {X86, ARM, SV39} && p < UserTop(a) && q < UserTop(a) && SamePage(a, PageAddress(p), PageAddress(q))
    ensures p == q
  {
    hide SamePage, PageAddress, SlotAt;
    SeesDigits(a, p, q, a.levels - 1);
    SeesDigits(a, p, q, a.levels - 2);
    SeesDigits(a, p, q, a.levels - 3);
    if a.levels == 4 {
      SeesDigits(a, p, q, 0);
    }
    DigitsTell(p, q);
  }

  // ---- Page numbers of paths ----

  lemma ThreeIndices(i2: Index, i1: Index, i0: Index)
    ensures Number([i2, i1, i0]) == (i2 as nat * 512 + i1 as nat) * 512 + i0 as nat
  {
    hide Number;
    NumberNone();
    NumberNext([], i2);
    NumberNext([i2], i1);
    NumberNext([i2, i1], i0);
    assert [] + [i2] == [i2] && [i2] + [i1] == [i2, i1] && [i2, i1] + [i0] == [i2, i1, i0];
  }

  lemma FourIndices(i3: Index, i2: Index, i1: Index, i0: Index)
    ensures Number([i3, i2, i1, i0]) == ((i3 as nat * 512 + i2 as nat) * 512 + i1 as nat) * 512 + i0 as nat
  {
    hide Number;
    ThreeIndices(i3, i2, i1);
    NumberNext([i3, i2, i1], i0);
    assert [i3, i2, i1] + [i0] == [i3, i2, i1, i0];
  }

  /** The path of page `p` has number `p`. */
  lemma PathNumber(a: Arch, p: nat)
    requires a in {X86, ARM, SV39} && p < UserTop(a)
    ensures Number(Path(a, PageAddress(p), a.levels)) == p
  {
    hide Number, PageAddress, SlotAt, Digit;
    var path := Path(a, PageAddress(p), a.levels);
    AddressSlots(p, 0);
    AddressSlots(p, 1);
    AddressSlots(p, 2);
    if a.levels == 3 {
      assert path == [Digit(p, 2), Digit(p, 1), Digit(p, 0)];
      ThreeIndices(Digit(p, 2), Digit(p, 1), Digit(p, 0));
    } else {
      AddressSlots(p, 3);
      assert path == [Digit(p, 3), Digit(p, 2), Digit(p, 1), Digit(p, 0)];
      FourIndices(Digit(p, 3), Digit(p, 2), Digit(p, 1), Digit(p, 0));
    }
    DigitSum(a, p);
  }

  lemma DigitSum(a: Arch, p: nat)
    requires a in {X86, ARM, SV39} && p < UserTop(a)
    ensures a.levels == 3 ==> p == (Digit(p, 2) as nat * 512 + Digit(p, 1) as nat) * 512 + Digit(p, 0) as nat
    ensures a.levels == 4 ==> p == ((Digit(p, 3) as nat * 512 + Digit(p, 2) as nat) * 512 + Digit(p, 1) as nat) * 512 + Digit(p, 0) as nat
  {
    Digits(p);
  }

  /** Pages are found under their numbers, and swap entries are never taken for mappings. */
  lemma PagesNumbered(a: Arch)
    requires a in {X86, ARM, SV39}
    ensures Numbered(a, PageAddress, UserTop(a)) && Distinguished(a)
  {
    hide Number, PageAddress, SlotAt, UserVa, UserAddresses, Formed;
    forall p | 0 <= p < UserTop(a)
      ensures UserVa(a, PageAddress(p)) && Number(Path(a, PageAddress(p), a.levels)) == p
    {
      PathNumber(a, p);
      UserPagesDiffer(a);
      UserPageVa(a, PageAddress, UserTop(a), p);
    }
    forall path: seq<Index> | |path| == a.levels && UserPath(path)
      ensures Number(path) < UserTop(a)
    {
      if a.levels == 3 {
        assert path == [path[0], path[1], path[2]];
        ThreeIndices(path[0], path[1], path[2]);
      } else {
        assert path == [path[0], path[1], path[2], path[3]];
        FourIndices(path[0], path[1], path[2], path[3]);
      }
    }
    forall e | Formed(e)
      ensures !a.present(e) && e != ZERO
    {
      NeverPresent(e);
    }
  }
}
