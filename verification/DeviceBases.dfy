/** Where the three kernels put device memory: different device pages differ to the page tables, and
    what the boot tables of the RISC-V boards leave free there. */
module DeviceBases {
  import opened Errors
  import opened PageTables
  import opened PageFormats
  import opened PageAddresses
  import opened AddressSpaces
  import opened Mmio

  /** `KERNEL_DEVIO_BASE` of the three kernels, as page numbers. */
  const X86_BASE := 0xF_FFFF_FFFC_0000
  const ARM_BASE := 0xF_FFF0_0008_0000
  const SV39_BASE := 0xF_FFFF_FC04_0000

  lemma BaseAddresses()
    ensures 4096 * X86_BASE == 0xFFFF_FFFF_8000_0000 + 0x4000_0000
    ensures 4096 * ARM_BASE == 0xFFFF_0000_0000_0000 + 0x8000_0000
    ensures 4096 * SV39_BASE == 0xFFFF_FFC0_0000_0000 + 0x4000_0000
  {
  }

  lemma X86Faithful()
    ensures Faithful(X86, PageAddress, X86_BASE)
  {
    hide SamePage, PageAddress, Digit;
    forall p, q | X86_BASE <= p < PAGES && X86_BASE <= q < PAGES && SamePage(X86, PageAddress(p), PageAddress(q))
      ensures p == q
    {
      SeesDigits(X86, p, q, 3);
      SeesDigits(X86, p, q, 2);
      SeesDigits(X86, p, q, 1);
      DigitsTell(p, q);
    }
  }

  lemma ArmFaithful()
    ensures Faithful(ARM, PageAddress, ARM_BASE)
  {
    hide SamePage, PageAddress, Digit;
    forall p, q | ARM_BASE <= p < PAGES && ARM_BASE <= q < PAGES && SamePage(ARM, PageAddress(p), PageAddress(q))
      ensures p == q
    {
      SeesDigits(ARM, p, q, 3);
      SeesDigits(ARM, p, q, 2);
      SeesDigits(ARM, p, q, 1);
      SeesDigits(ARM, p, q, 0);
      TopDigit(p, q);
      DigitsTell(p, q);
    }
  }

  /** Above the base of AArch64 device memory the sixteen top bits are all set. */
  lemma TopDigit(p: nat, q: nat)
    requires ARM_BASE <= p < PAGES && ARM_BASE <= q < PAGES && Digit(p, 3) == Digit(q, 3)
    ensures p / 0x800_0000 == q / 0x800_0000
  {
    assert p / 0x800_0000 / 512 == 0xFFFF && q / 0x800_0000 / 512 == 0xFFFF;
  }

  lemma SvFaithful()
    ensures Faithful(SV39, PageAddress, SV39_BASE)
  {
    hide SamePage, PageAddress, Digit;
    forall p, q | SV39_BASE <= p < PAGES && SV39_BASE <= q < PAGES && SamePage(SV39, PageAddress(p), PageAddress(q))
      ensures p == q
    {
      SeesDigits(SV39, p, q, 2);
      SeesDigits(SV39, p, q, 1);
      SeesDigits(SV39, p, q, 0);
      DigitsTell(p, q);
    }
  }

  // ---- The RISC-V boards ----

  /** The boot entry of the gigabyte of memory at `ppn` pages, with every kernel right. */
  function BootEntry(ppn: bv64): Word {
    Word((ppn << 10) | 0xCF)
  }

  lemma BootEntryMaps(ppn: bv64)
    ensures SV39.present(BootEntry(ppn)) && SV39.isBlock(BootEntry(ppn))
    ensures SV39.addr(BootEntry(ppn & 0xFFF_FFFF_FFFF)) == Word((ppn & 0xFFF_FFFF_FFFF) << 12)
  {
  }

  /** A page under a gigabyte entry translates, and one under an empty root slot does not. */
  lemma UnderRoot(mem: Memory, root: Word, p: nat)
    ensures var e := Get(mem, root, Digit(p, 2));
      && (SV39.present(e) && SV39.isBlock(e) ==> Translate(SV39, mem, root, PageAddress(p)).Some?)
      && (!SV39.present(e) ==> Translate(SV39, mem, root, PageAddress(p)).None?)
  {
    hide SlotAt, PageAddress, Digit, SvPresent, SvBlock;
    AddressSlots(p, 2);
    assert SV39.index(PageAddress(p), 0) == Digit(p, 2);
  }

  /** Device pages in root slot 257, and those in the next one. */
  lemma BaseSlot(p: nat)
    requires SV39_BASE <= p < SV39_BASE + 0x8_0000
    ensures Digit(p, 2) == if p < SV39_BASE + 0x4_0000 then 257 else 258
  {
  }

  /** On the VisionFive 2 memory starts at 0x40000000, and root slot 257 maps it: the first window
      that is asked for would take pages of the kernel itself. */
  lemma VisionFive2Occupied(mem: Memory, root: Word, count: nat)
    requires Get(mem, root, 257) == BootEntry(0x4_0000) && 0 < count && SV39_BASE + count < PAGES
    ensures LowestHole([], SV39_BASE, SV39_BASE, count) && !Unused(SV39, mem, root, PageAddress, SV39_BASE, count)
  {
    hide PageAddress, Translate;
    BootEntryMaps(0x4_0000);
    BaseSlot(SV39_BASE);
    UnderRoot(mem, root, SV39_BASE);
    assert Translate(SV39, mem, root, PageAddress(SV39_BASE)).Some?;
  }

  /** On the QEMU machine memory starts at 0x80000000 and root slot 258 maps it: a first window is
      free of it exactly if it is no larger than a gigabyte. */
  lemma QemuWindow(mem: Memory, root: Word, count: nat)
    requires !SV39.present(Get(mem, root, 257)) && Get(mem, root, 258) == BootEntry(0x8_0000)
    ensures Unused(SV39, mem, root, PageAddress, SV39_BASE, count) <==> count <= 0x4_0000
  {
    hide PageAddress, Translate, Digit, BootEntry;
    BootEntryMaps(0x8_0000);
    forall p: nat | SV39_BASE <= p < SV39_BASE + 0x4_0000
      ensures Translate(SV39, mem, root, PageAddress(p)).None?
    {
      BaseSlot(p);
      UnderRoot(mem, root, p);
    }
    var q := SV39_BASE + 0x4_0000;
    BaseSlot(q);
    UnderRoot(mem, root, q);
    assert Translate(SV39, mem, root, PageAddress(q)).Some?;
  }

  /** There the kernel stops at the first window, if it has the frames to get that far. */
  method FirstWindowOnVisionFive2(m: MmioAllocator, pa: nat, size: nat, perm: bv32) returns (r: Result<Region>, stopped: bool)
    requires m.Valid() && m.regions == [] && m.space.a == SV39 && m.at == PageAddress && m.base == SV39_BASE
    requires Get(m.space.mem, m.space.root, 257) == BootEntry(0x4_0000)
    requires pa < BYTES && size < BYTES && WindowOk(pa, size, perm) && SV39_BASE + Span(pa, size) / 4096 < PAGES
    requires |m.space.frames.pool| > Cost(SV39.levels, Span(pa, size) / 4096)
    requires forall x: nat :: pa / 4096 <= x <= (pa + size) / 4096 ==> SV39.isFrame(PageAddress(x))
    modifies m, m.space
    ensures stopped
  {
    hide PageAddress, Translate, MmioAllocator.Valid, BootEntry, SameOff, WindowAt, WindowOk, Unused, Covers;
    WindowMeans(pa, size, perm);
    SpanPages(pa, size);
    VisionFive2Occupied(m.space.mem, m.space.root, Span(pa, size) / 4096);
    ghost var hole;
    r, stopped, hole := m.Map(pa, size, perm, true);
  }
}
