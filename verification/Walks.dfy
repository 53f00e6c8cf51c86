/** The processor's side of paging: how a four-level table, stored as words of physical
    memory, translates a virtual page (Intel SDM volume 3A, sections 4.5 and 4.6). */
module Walks {
  import opened Wrappers
  import opened Entries

  /** Number of 4K pages that bits 47:12 of an address can name. */
  const PAGES: nat := 0x10_0000_0000
  const SLOTS: nat := 512

  /** Number of 4K pages that one entry of a table at `level` spans. */
  function Reach(level: nat): (r: nat)
    requires 1 <= level <= 5
    ensures r > 0
  {
    match level
    case 1 => 1
    case 2 => 512
    case 3 => 0x4_0000
    case 4 => 0x800_0000
    case _ => 0x10_0000_0000
  }

  function Page(vaddr: nat): (n: nat)
    ensures n < PAGES
  {
    vaddr / PAGE_SIZE % PAGES
  }

  function Block(level: nat, n: nat): nat
    requires 1 <= level <= 5
  {
    n / Reach(level)
  }

  function IndexAt(level: nat, n: nat): (i: nat)
    requires 1 <= level <= 4
    ensures i < SLOTS
  {
    Block(level, n) % SLOTS
  }

  lemma BlockSplit(level: nat, n: nat)
    requires 1 <= level <= 4
    ensures Block(level, n) == Block(level + 1, n) * SLOTS + IndexAt(level, n)
  {}

  lemma SmallerBlock(small: nat, large: nat, n: nat, m: nat)
    requires 1 <= small <= large <= 5 && Block(small, n) == Block(small, m)
    ensures Block(large, n) == Block(large, m)
    decreases large - small
  {
    if small < large {
      BlockSplit(small, n);
      BlockSplit(small, m);
      SmallerBlock(small + 1, large, n, m);
    }
  }

  /** The word that entry `i` of the table in frame `f` occupies. */
  function Slot(f: nat, i: nat): nat {
    f * SLOTS + i
  }

  /** What a translation yields for one 4K page: its frame, the level of the leaf (the size of
      the mapped page) and the rights of section 4.6, which are the AND of the rights of every
      entry on the way. */
  datatype Mapping = Mapping(frame: nat, level: nat, write: bool, user: bool, cacheDisable: bool)

  predicate IsLeaf(e: Word, level: nat) {
    Present(e) && (level == 1 || Large(e))
  }

  predicate IsPointer(e: Word, level: nat) {
    Present(e) && level > 1 && !Large(e)
  }

  function LeafMapping(e: Word, level: nat, n: nat): Mapping
    requires 1 <= level <= 4
  {
    Mapping(FrameOf(e) / Reach(level) * Reach(level) + n % Reach(level), level,
            Writable(e), UserMode(e), CacheDisabled(e))
  }

  function Restrict(m: Option<Mapping>, write: bool, user: bool): Option<Mapping> {
    if m.None? then None
    else Some(m.value.(write := m.value.write && write, user := m.value.user && user))
  }

  /** Walk from the table in frame `f`. The size bit of a top-level entry is reserved, and a
      table outside the installed memory translates nothing. */
  function WalkFrom(mem: seq<Word>, f: nat, level: nat, n: nat): Option<Mapping>
    requires 1 <= level <= 4
    decreases level
  {
    var s := Slot(f, IndexAt(level, n));
    if s >= |mem| || !Present(mem[s]) || (level == 4 && Large(mem[s])) then None
    else if IsLeaf(mem[s], level) then Some(LeafMapping(mem[s], level, n))
    else Restrict(WalkFrom(mem, FrameOf(mem[s]), level - 1, n), Writable(mem[s]), UserMode(mem[s]))
  }

  function WalkPage(mem: seq<Word>, root: nat, n: nat): Option<Mapping> {
    WalkFrom(mem, root, 4, n)
  }

  /** The level of the leaf that maps page `n`, or 0 when the page is not mapped. */
  function LeafLevel(mem: seq<Word>, root: nat, n: nat): nat {
    match WalkPage(mem, root, n)
    case None => 0
    case Some(m) => m.level
  }

  /** The physical address a virtual address reaches. */
  function Translate(mem: seq<Word>, root: nat, vaddr: nat): Option<nat> {
    match WalkPage(mem, root, Page(vaddr))
    case None => None
    case Some(m) => Some(m.frame * PAGE_SIZE + vaddr % PAGE_SIZE)
  }
}
