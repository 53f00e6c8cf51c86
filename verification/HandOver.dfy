/** From the loader's table (uefi-loader/src/main.rs) to the kernel's reference table
    (kernel/src/mm/mod.rs): exactly when both send the kernel image to the same memory. */
module HandOver {
  import opened Wrappers
  import opened Entries
  import opened Walks
  import opened Forests
  import opened Elfs
  import opened LoaderModels
  import opened MemoryBoots
  import Loaders

  /** The 2^48 addresses that end at 2^64. */
  const UPPER_BASE: nat := 0xffff_0000_0000_0000

  /** The loader placed the kernel's segments from the start of the kernel text on. */
  ghost predicate InText(loads: seq<ProgramHeader>) {
    Placed(loads, UPPER_BASE) && forall j: nat | j < |loads| :: KERNEL_TEXT_START <= loads[j].vaddr
  }

  /** The reference table reads an address of the kernel text as the offset into the kernel's memory. */
  lemma ReferenceText(mem: seq<Word>, F: Forest, free: set<nat>, pool: set<nat>, first: nat, text: nat, blocks: nat, d: nat)
    requires Booted(mem, F, free, pool, first, text, blocks) && d < KERNEL_TEXT_ROOM
    ensures Translate(mem, F.kroot, KERNEL_TEXT_START + d) ==
      if d < text * PAGE_SIZE then Some(first * PAGE_SIZE + d) else None
  {
    hide WalkFrom, Forests.Valid;
    if d < text * PAGE_SIZE {
      TextTranslates(mem, F, free, pool, first, text, blocks, d);
    } else {
      var k := d / PAGE_SIZE;
      TextNumbers(k);
      assert (KERNEL_TEXT_START + d) / PAGE_SIZE == (KERNEL_TEXT_START + k * PAGE_SIZE) / PAGE_SIZE;
      assert BootWalk(first, text, blocks, TEXT_PAGE + k) == None;
    }
  }

  /** Where the segments before `j` end, seen from the start of the kernel's memory. */
  function Before(loads: seq<ProgramHeader>, j: nat): nat
    requires j <= |loads|
  {
    TotalPages(loads[..j]) * PAGE_SIZE
  }

  lemma BeforeFits(loads: seq<ProgramHeader>, j: nat)
    requires j < |loads|
    ensures Before(loads, j) + PageCount(loads[j]) * PAGE_SIZE <= TotalPages(loads) * PAGE_SIZE
    ensures forall start: nat :: SegmentStart(start, loads, j) == start + Before(loads, j)
  {
    hide PageCount;
    Loaders.EarlierSegment(0, loads, j);
  }

  /** Both tables translate these addresses alike. */
  ghost predicate Agree(kmem: seq<Word>, kroot: nat, lmem: seq<Word>, lroot: nat, from: nat, length: nat) {
    forall a: nat | from <= a < from + length :: Translate(kmem, kroot, a) == Translate(lmem, lroot, a)
  }

  /** If they are `length > 0` addresses of the kernel text that the loader mapped to the kernel's
      memory from `at` on, the tables agree if and only if `from` has the same offset. */
  lemma AgreeIff(kmem: seq<Word>, kroot: nat, lmem: seq<Word>, lroot: nat, from: nat, length: nat, start: nat, at: nat, room: nat)
    requires KERNEL_TEXT_START <= from && 0 < length && at + length <= room
    requires forall a: nat | from <= a < from + length :: Translate(lmem, lroot, a) == Some(start + at + (a - from))
    requires forall a: nat | from <= a < from + length ::
      Translate(kmem, kroot, a) == if a - KERNEL_TEXT_START < room then Some(start + (a - KERNEL_TEXT_START)) else None
    ensures Agree(kmem, kroot, lmem, lroot, from, length) <==> from == KERNEL_TEXT_START + at
  {
    hide Translate;
    assert Translate(lmem, lroot, from) == Some(start + at);
  }

  lemma InRoom(loads: seq<ProgramHeader>, j: nat, i: nat)
    requires InText(loads) && j < |loads| && i < PageCount(loads[j]) * PAGE_SIZE
    ensures KERNEL_TEXT_START <= loads[j].vaddr && loads[j].vaddr + i < KERNEL_TEXT_START + KERNEL_TEXT_ROOM
  {
    hide PageCount, EndVaddr;
    EndIsHighest(loads, j);
  }

  lemma SegmentAgreesIff(kmem: seq<Word>, KF: Forest, kfree: set<nat>, pool: set<nat>, blocks: nat,
                         lmem: seq<Word>, LF: Forest, lfree: set<nat>, start: nat, loads: seq<ProgramHeader>, own: seq<nat>, j: nat)
    requires start % PAGE_SIZE == 0 && InText(loads) && OwnClear(loads, UPPER_BASE, own) && j < |loads| && PageCount(loads[j]) > 0
    requires Booted(kmem, KF, kfree, pool, start / PAGE_SIZE, TotalPages(loads) + STACK_PAGE_COUNT, blocks)
    requires TreeMaps(lmem, LF, lfree, FinalMap(start, loads, own))
    ensures Agree(kmem, KF.kroot, lmem, LF.kroot, loads[j].vaddr, PageCount(loads[j]) * PAGE_SIZE) <==>
            loads[j].vaddr == KERNEL_TEXT_START + Before(loads, j)
  {
    hide Booted, TreeMaps, FinalMap, SegmentStart, Translate, PageCount, TotalPages, Placed, Agree;
    var from, length, text := loads[j].vaddr, PageCount(loads[j]) * PAGE_SIZE, TotalPages(loads) + STACK_PAGE_COUNT;
    BeforeFits(loads, j);
    forall a: nat | from <= a < from + length
      ensures Translate(lmem, LF.kroot, a) == Some(start + Before(loads, j) + (a - from))
      ensures Translate(kmem, KF.kroot, a) ==
        if a - KERNEL_TEXT_START < text * PAGE_SIZE then Some(start + (a - KERNEL_TEXT_START)) else None
    {
      var i: nat := a - from;
      InRoom(loads, j, i);
      SegmentTranslates(lmem, LF, lfree, start, loads, own, UPPER_BASE, j, i);
      ReferenceText(kmem, KF, kfree, pool, start / PAGE_SIZE, text, blocks, a - KERNEL_TEXT_START);
    }
    AgreeIff(kmem, KF.kroot, lmem, LF.kroot, from, length, start, Before(loads, j), text * PAGE_SIZE);
  }

  /** The tables of the loader and of the kernel agree on the whole image if and only if every
      segment that has pages lies at the start of the kernel text plus the pages before it. */
  lemma HandOverIff(kmem: seq<Word>, KF: Forest, kfree: set<nat>, pool: set<nat>, blocks: nat,
                    lmem: seq<Word>, LF: Forest, lfree: set<nat>, start: nat, loads: seq<ProgramHeader>, own: seq<nat>)
    requires start % PAGE_SIZE == 0 && InText(loads) && OwnClear(loads, UPPER_BASE, own)
    requires Booted(kmem, KF, kfree, pool, start / PAGE_SIZE, TotalPages(loads) + STACK_PAGE_COUNT, blocks)
    requires TreeMaps(lmem, LF, lfree, FinalMap(start, loads, own))
    ensures (forall j: nat | j < |loads| ::
               Agree(kmem, KF.kroot, lmem, LF.kroot, loads[j].vaddr, PageCount(loads[j]) * PAGE_SIZE)) <==>
            (forall j: nat | j < |loads| && PageCount(loads[j]) > 0 :: loads[j].vaddr == KERNEL_TEXT_START + Before(loads, j))
  {
    hide Booted, TreeMaps, FinalMap, PageCount, TotalPages, InText, Translate, Before;
    forall j: nat | j < |loads|
      ensures Agree(kmem, KF.kroot, lmem, LF.kroot, loads[j].vaddr, PageCount(loads[j]) * PAGE_SIZE) <==>
              (PageCount(loads[j]) > 0 ==> loads[j].vaddr == KERNEL_TEXT_START + Before(loads, j))
    {
      if PageCount(loads[j]) > 0 {
        SegmentAgreesIff(kmem, KF, kfree, pool, blocks, lmem, LF, lfree, start, loads, own, j);
      }
    }
  }

  /** The kernel keeps its stack over the change of tables if and only if the stack lies behind as
      many pages of the kernel text as the image has. */
  lemma StackHandOverIff(kmem: seq<Word>, KF: Forest, kfree: set<nat>, pool: set<nat>, blocks: nat,
                         lmem: seq<Word>, LF: Forest, lfree: set<nat>, start: nat, loads: seq<ProgramHeader>, own: seq<nat>)
    requires start % PAGE_SIZE == 0 && InText(loads) && OwnClear(loads, UPPER_BASE, own) && loads != []
    requires Booted(kmem, KF, kfree, pool, start / PAGE_SIZE, TotalPages(loads) + STACK_PAGE_COUNT, blocks)
    requires TreeMaps(lmem, LF, lfree, FinalMap(start, loads, own))
    ensures Agree(kmem, KF.kroot, lmem, LF.kroot, EndVaddr(loads), STACK_SIZE) <==>
            EndVaddr(loads) == KERNEL_TEXT_START + TotalPages(loads) * PAGE_SIZE
  {
    hide Booted, TreeMaps, FinalMap, Translate, PageCount, EndVaddr, SegmentEnd, Agree;
    var end, at, text := EndVaddr(loads), TotalPages(loads) * PAGE_SIZE, TotalPages(loads) + STACK_PAGE_COUNT;
    assert loads[..|loads|] == loads;
    EndIsHighest(loads, 0);
    SegmentGrows(loads[0]);
    EndAligned(loads, UPPER_BASE);
    StackInPlaceIff(lmem, LF, lfree, start, loads, own, UPPER_BASE);
    forall a: nat | end <= a < end + STACK_SIZE
      ensures Translate(lmem, LF.kroot, a) == Some(start + at + (a - end))
      ensures Translate(kmem, KF.kroot, a) ==
        if a - KERNEL_TEXT_START < text * PAGE_SIZE then Some(start + (a - KERNEL_TEXT_START)) else None
    {
      ReferenceText(kmem, KF, kfree, pool, start / PAGE_SIZE, text, blocks, a - KERNEL_TEXT_START);
    }
    AgreeIff(kmem, KF.kroot, lmem, LF.kroot, end, STACK_SIZE, start, at, text * PAGE_SIZE);
  }

  lemma SegmentGrows(h: ProgramHeader)
    ensures h.vaddr <= SegmentEnd(h)
  {}

  // Two images that are not in place.

  /** A segment of 16 bytes at the given offset into the kernel text. */
  function SmallSegment(offset: nat): ProgramHeader {
    ProgramHeader(Load, 5, 0, KERNEL_TEXT_START + offset, 0, 16, 16, 0x1000)
  }

  lemma TextPages(offset: nat, k: nat)
    requires offset < 0x1000 && k <= 0x1000
    ensures Page(KERNEL_TEXT_START + offset + k * PAGE_SIZE) == 0xf_fff8_0000 + k && Page(k * PAGE_SIZE) == k
  {
    assert (KERNEL_TEXT_START + offset + k * PAGE_SIZE) / PAGE_SIZE == 0xf_ffff_fff8_0000 + k;
  }

  /** Stack and identity map leave the first page of the text alone. */
  lemma FirstTextPage(start: nat, loads: seq<ProgramHeader>, offset: nat)
    requires offset < 0x1000 && EndVaddr(loads) == KERNEL_TEXT_START + offset + PAGE_SIZE
    ensures var n := Page(KERNEL_TEXT_START + offset);
      (n in KernelMap(start, loads) <==> n in ImageMap(start, loads)) &&
        (n in ImageMap(start, loads) ==> KernelMap(start, loads)[n] == ImageMap(start, loads)[n])
  {
    hide Page, AddPages, ImageMap, SegmentStart, EndVaddr;
    var image, end, at := ImageMap(start, loads), EndVaddr(loads), SegmentStart(start, loads, |loads|);
    TextPages(offset, 0);
    forall k: nat | k < STACK_PAGE_COUNT ensures Page(end + k * PAGE_SIZE) != Page(KERNEL_TEXT_START + offset) {
      TextPages(offset, k + 1);
    }
    OtherPage(image, end, at, STACK_PAGE_COUNT, Page(KERNEL_TEXT_START + offset));
    forall k: nat | k < IDENTITY_SIZE / PAGE_SIZE ensures Page(0 + k * PAGE_SIZE) != Page(KERNEL_TEXT_START + offset) {
      TextPages(offset, k);
    }
    OtherPage(AddPages(image, end, at, STACK_PAGE_COUNT), 0, 0, IDENTITY_SIZE / PAGE_SIZE, Page(KERNEL_TEXT_START + offset));
  }

  lemma OneSegment(start: nat, offset: nat)
    requires offset < 0x1000 && start % PAGE_SIZE == 0
    ensures var loads := [SmallSegment(offset)];
      ImageMap(start, loads) == map[Page(KERNEL_TEXT_START + offset) := start / PAGE_SIZE]
      && EndVaddr(loads) == KERNEL_TEXT_START + offset + PAGE_SIZE
  {
    hide Page;
    var h := SmallSegment(offset);
    var loads := [h];
    assert Front(loads) == [] && Last(loads) == h && PageCount(h) == 1 && loads[..0] == [];
    assert AddPages(map[], h.vaddr, start, 0) == map[];
  }

  lemma TwoSegments(start: nat)
    requires start % PAGE_SIZE == 0
    ensures var loads := [SmallSegment(0), SmallSegment(0)];
      ImageMap(start, loads) == map[Page(KERNEL_TEXT_START) := start / PAGE_SIZE + 1]
      && EndVaddr(loads) == KERNEL_TEXT_START + PAGE_SIZE
  {
    hide Page;
    var h := SmallSegment(0);
    var loads := [h, h];
    OneSegment(start, 0);
    assert Front(loads) == [h] && Last(loads) == h && PageCount(h) == 1 && loads[..1] == [h] && [h][..0] == [];
    assert SegmentStart(start, loads, 1) == start + PAGE_SIZE;
    var M := ImageMap(start, [h]);
    assert AddPages(M, h.vaddr, start + PAGE_SIZE, 0) == M;
  }

  /** A segment in the middle of a page is read from the middle of its place. */
  lemma UnalignedExample(words: seq<Word>, F: Forest, free: set<nat>, start: nat)
    requires start % PAGE_SIZE == 0 && TreeMaps(words, F, free, FinalMap(start, [SmallSegment(0x800)], []))
    ensures Translate(words, F.kroot, SmallSegment(0x800).vaddr) == Some(start + 0x800)
  {
    hide WalkFrom, Forests.Valid, Page, ImageMap, SegmentStart, EndVaddr, AddPages;
    OneSegment(start, 0x800);
    FirstTextPage(start, [SmallSegment(0x800)], 0x800);
  }

  /** Of two segments in one page both are read in the place of the second. */
  lemma SharedPageExample(words: seq<Word>, F: Forest, free: set<nat>, start: nat)
    requires start % PAGE_SIZE == 0 && TreeMaps(words, F, free, FinalMap(start, [SmallSegment(0), SmallSegment(0)], []))
    ensures Translate(words, F.kroot, SmallSegment(0).vaddr) == Some(start + PAGE_SIZE)
  {
    hide WalkFrom, Forests.Valid, Page, ImageMap, SegmentStart, EndVaddr, AddPages;
    TwoSegments(start);
    FirstTextPage(start, [SmallSegment(0), SmallSegment(0)], 0);
  }
}
