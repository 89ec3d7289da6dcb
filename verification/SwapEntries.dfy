/** Swap entries: page-table words that name a slot of the swap device and keep a page's rights. */
module SwapEntries {
  import opened PageTables
  import opened PageFormats

  const MAX_SLOTS := 0x100_0000     // slots fit in 24 bits

  newtype Octet = b: int | 0 <= b < 256

  function ToBits8(b: Octet): bv8 {
    b as bv8
  }

  function ToOctet(b: bv8): Octet {
    b as Octet
  }

  function Low(slot: nat): Octet {
    (slot % 256) as Octet
  }

  function Joined(b2: bv8, b1: bv8, b0: bv8, write: bool, execute: bool): bv64 {
    (b2 as bv64 << 24) | (b1 as bv64 << 16) | (b0 as bv64 << 8) | 0x80 | (if write then 2 else 0) | (if execute then 4 else 0)
  }

  /** The entry for a slot, in bits 8 to 31, and the rights of its page, with the flag that says the
      rights are there. */
  function Entry(slot: nat, write: bool, execute: bool): Word {
    Word(Joined(ToBits8(Low(slot / 65536)), ToBits8(Low(slot / 256)), ToBits8(Low(slot)), write, execute))
  }

  /** No bits outside the slot number and the flags, and the flag that says rights are kept. */
  predicate Formed(e: Word) {
    e.bits & 0xFFFF_FFFF_0000_0079 == 0 && e.bits & 0x80 != 0
  }

  function Part(bits: bv64, byte: nat): bv8 {
    if byte == 2 then ((bits >> 24) & 0xFF) as bv8 else if byte == 1 then ((bits >> 16) & 0xFF) as bv8 else ((bits >> 8) & 0xFF) as bv8
  }

  function SlotOf(e: Word): nat {
    65536 * (ToOctet(Part(e.bits, 2)) as nat) + 256 * (ToOctet(Part(e.bits, 1)) as nat) + ToOctet(Part(e.bits, 0)) as nat
  }

  predicate WriteOf(e: Word) {
    e.bits & 2 != 0
  }

  predicate ExecuteOf(e: Word) {
    e.bits & 4 != 0
  }

  lemma JoinedParts(b2: bv8, b1: bv8, b0: bv8, write: bool, execute: bool)
    ensures var x := Joined(b2, b1, b0, write, execute);
      && Part(x, 2) == b2 && Part(x, 1) == b1 && Part(x, 0) == b0
      && x & 0xFFFF_FFFF_0000_0079 == 0 && x & 0x80 != 0 && (x & 2 != 0) == write && (x & 4 != 0) == execute
  {
  }

  lemma EightBits(b: Octet)
    ensures ToOctet(b as bv8) == b
  {
  }

  lemma OctetBack(b: Octet)
    ensures ToOctet(ToBits8(b)) == b
  {
    hide ToOctet;
    EightBits(b);
  }

  /** An entry gives back what it was made of. */
  lemma EntryRoundTrip(slot: nat, write: bool, execute: bool)
    requires slot < MAX_SLOTS
    ensures var e := Entry(slot, write, execute);
      Formed(e) && SlotOf(e) == slot && WriteOf(e) == write && ExecuteOf(e) == execute
  {
    hide Joined, Part, ToBits8, ToOctet;
    var b2, b1, b0 := Low(slot / 65536), Low(slot / 256), Low(slot);
    JoinedParts(ToBits8(b2), ToBits8(b1), ToBits8(b0), write, execute);
    OctetBack(b2);
    OctetBack(b1);
    OctetBack(b0);
    assert slot == 65536 * (slot / 65536) + 256 * (slot / 256 % 256) + slot % 256;
  }

  /** To no architecture is an entry a mapping, nor an empty slot. */
  lemma NeverPresent(e: Word)
    requires Formed(e)
    ensures e != ZERO && !X86.present(e) && !ARM.present(e) && !SV39.present(e)
  {
  }
}
