/** The 64-bit page-table entry: the bit operations the kernel performs on it, and the
    fields that sections 4.5 and 4.6 of the Intel SDM volume 3A read out of it. */
module Entries {
  import opened Bits

  const FRAME_LIMIT: nat := 0x100_0000_0000
  const PAGE_SIZE: nat := 4096
  const ADDRESS_MASK: nat := 0x000f_ffff_ffff_f000
  const PRESENT_BIT: nat := 0x1
  const SIZE_BIT: nat := 0x80

  type Word = w: nat | w < WORD_LIMIT

  /** The `EntryFlags` that the mapping code sets. */
  datatype EntryFlags = EntryFlags(present: bool, write: bool, user: bool, cacheDisable: bool, size: bool) {
    function Bits(): nat {
      (if present then 0x1 else 0) + (if write then 0x2 else 0) + (if user then 0x4 else 0) +
      (if cacheDisable then 0x10 else 0) + (if size then 0x80 else 0)
    }
  }

  // What the code does with a word.

  predicate Contains(e: Word, flag: nat) {
    And(e, flag) == flag
  }

  function Address(e: Word): nat {
    And(e, ADDRESS_MASK)
  }

  function SetAddress(e: Word, paddr: nat): nat {
    Or(e, paddr)
  }

  function SetFlags(e: nat, flags: EntryFlags): nat {
    Or(e, flags.Bits())
  }

  // What the processor reads in a word.

  predicate Present(e: Word) { e % 2 == 1 }
  predicate Writable(e: Word) { e / 2 % 2 == 1 }
  predicate UserMode(e: Word) { e / 4 % 2 == 1 }
  predicate CacheDisabled(e: Word) { e / 16 % 2 == 1 }
  predicate Large(e: Word) { e / 128 % 2 == 1 }

  function FrameOf(e: Word): (f: nat)
    ensures f < FRAME_LIMIT
  {
    e / PAGE_SIZE % FRAME_LIMIT
  }

  predicate HasFlags(e: Word, flags: EntryFlags) {
    Present(e) == flags.present && Writable(e) == flags.write && UserMode(e) == flags.user &&
    CacheDisabled(e) == flags.cacheDisable && Large(e) == flags.size
  }

  lemma AddressMaskIsShift()
    ensures ADDRESS_MASK == Shl(Pow2(40) - 1, 12)
  {
    Pow2Values();
    ShlIsTimes(Pow2(40) - 1, 12);
  }

  lemma SingleBit(e: Word, k: nat)
    ensures Contains(e, Pow2(k)) <==> e / Pow2(k) % 2 == 1
  {
    var q := e / Pow2(k);
    ShlIsTimes(1, k);
    AndShift(e, 1, k);
    ShrIsDiv(e, k);
    AndLow(q, 1);
    assert And(q, 1) == q % 2;
    ShlIsTimes(q % 2, k);
  }

  lemma AddressIsFrame(e: Word)
    ensures Address(e) == FrameOf(e) * PAGE_SIZE
  {
    AddressMaskIsShift();
    AndShift(e, Pow2(40) - 1, 12);
    ShrIsDiv(e, 12);
    Pow2Values();
    AndLow(e / PAGE_SIZE, 40);
    ShlIsTimes(FrameOf(e), 12);
  }

  /** The masks and tests of the code read the fields of the processor. */
  lemma EntryReads(e: Word)
    ensures Contains(e, PRESENT_BIT) <==> Present(e)
    ensures Contains(e, SIZE_BIT) <==> Large(e)
    ensures Address(e) == FrameOf(e) * PAGE_SIZE
  {
    SingleBit(e, 0);
    SingleBit(e, 7);
    assert Pow2(7) == SIZE_BIT;
    AddressIsFrame(e);
  }

  function MakeEntry(paddr: nat, flags: EntryFlags): nat {
    SetFlags(SetAddress(0, paddr), flags)
  }

  lemma EvenPart(v: nat, x: nat, bits: nat, k: nat)
    requires k > 0 && v == 2 * x * k + bits
    ensures v / k % 2 == bits / k % 2
  {
    var q, r := bits / k, bits % k;
    assert v == (2 * x + q) * k + r;
    DivModUnique(v, k, 2 * x + q, r);
  }

  lemma BitsOfSum(frame: nat, bits: nat)
    ensures (frame * PAGE_SIZE + bits) / 1 % 2 == bits / 1 % 2
    ensures (frame * PAGE_SIZE + bits) / 2 % 2 == bits / 2 % 2
    ensures (frame * PAGE_SIZE + bits) / 4 % 2 == bits / 4 % 2
    ensures (frame * PAGE_SIZE + bits) / 16 % 2 == bits / 16 % 2
    ensures (frame * PAGE_SIZE + bits) / 128 % 2 == bits / 128 % 2
  {
    var v := frame * PAGE_SIZE + bits;
    EvenPart(v, 2048 * frame, bits, 1);
    EvenPart(v, 1024 * frame, bits, 2);
    EvenPart(v, 512 * frame, bits, 4);
    EvenPart(v, 128 * frame, bits, 16);
    EvenPart(v, 16 * frame, bits, 128);
  }

  lemma FrameOfSum(frame: nat, bits: nat)
    requires frame < FRAME_LIMIT && bits < PAGE_SIZE
    ensures var e := frame * PAGE_SIZE + bits; e < WORD_LIMIT && FrameOf(e) == frame
  {
    var e := frame * PAGE_SIZE + bits;
    assert e / PAGE_SIZE == frame;
  }

  lemma FlagFields(flags: EntryFlags)
    ensures HasFlags(flags.Bits(), flags) && flags.Bits() < PAGE_SIZE
  {}

  lemma EntrySum(frame: nat, bits: nat, flags: EntryFlags)
    requires frame < FRAME_LIMIT && bits < PAGE_SIZE && HasFlags(bits, flags)
    ensures var e := frame * PAGE_SIZE + bits;
      e < WORD_LIMIT && HasFlags(e, flags) && FrameOf(e) == frame
  {
    FrameOfSum(frame, bits);
    BitsOfSum(frame, bits);
  }

  lemma MakeIsSum(frame: nat, flags: EntryFlags)
    ensures MakeEntry(frame * PAGE_SIZE, flags) == frame * PAGE_SIZE + flags.Bits()
  {
    Pow2Values();
    FlagFields(flags);
    OrDisjoint(frame, flags.Bits(), 12);
  }

  /** An entry built from an aligned address below 2^52 decodes to that address and those flags. */
  lemma EntryMade(frame: nat, flags: EntryFlags)
    requires frame < FRAME_LIMIT
    ensures MakeEntry(frame * PAGE_SIZE, flags) < WORD_LIMIT
    ensures HasFlags(MakeEntry(frame * PAGE_SIZE, flags), flags)
    ensures FrameOf(MakeEntry(frame * PAGE_SIZE, flags)) == frame
  {
    MakeIsSum(frame, flags);
    FlagFields(flags);
    EntrySum(frame, flags.Bits(), flags);
  }
}
