/** Physical memory (kernel/src/mm/physical_memory.rs) as a store of 64-bit words that both
    of the source's views, the boot one and the direct-mapped one, read and write. */
module PhysMem {
  import opened Entries
  import opened Walks
  import opened Forests

  const PHYSICAL_MEMORY_START: nat := 0xffff_8880_0000_0000
  const PHYSICAL_MEMORY_END: nat := 0xffff_9880_0000_0000

  /** `KernelPhysicalMemory::translate`. */
  function DirectMap(paddr: nat): nat {
    paddr + PHYSICAL_MEMORY_START
  }

  /** The physical address of entry `i` of the table in frame `f`. */
  function SlotAddr(f: nat, i: nat): (a: nat)
    ensures a % 8 == 0 && a / 8 == Slot(f, i)
  {
    f * PAGE_SIZE + i * 8
  }

  class PhysicalMemory {
    var words: seq<Word>

    /** All of the memory lies inside the direct-mapped window. */
    ghost predicate Valid()
      reads this
    {
      DirectMap(8 * |words|) <= PHYSICAL_MEMORY_END
    }

    method Read(paddr: nat) returns (value: Word)
      requires Valid() && paddr % 8 == 0 && paddr / 8 < |words|
      ensures value == words[paddr / 8]
    {
      assert DirectMap(paddr + 7) < PHYSICAL_MEMORY_END;
      value := words[paddr / 8];
    }

    method Write(paddr: nat, value: Word)
      requires Valid() && paddr % 8 == 0 && paddr / 8 < |words|
      modifies this
      ensures Valid() && words == old(words)[paddr / 8 := value]
    {
      assert DirectMap(paddr + 7) < PHYSICAL_MEMORY_END;
      words := words[paddr / 8 := value];
    }

    /** `write_bytes(ptr, 0, 4096)`. */
    method ZeroPage(paddr: nat)
      requires Valid() && paddr % PAGE_SIZE == 0 && Slot(paddr / PAGE_SIZE, SLOTS) <= |words|
      modifies this
      ensures Valid() && words == ZeroFrame(old(words), paddr / PAGE_SIZE)
    {
      words := ZeroFrame(words, paddr / PAGE_SIZE);
    }
  }
}
