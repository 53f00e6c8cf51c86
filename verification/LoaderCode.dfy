/** The boot loader's code (uefi-loader/src/main.rs:114-606): it builds the kernel's page table
    and loads the image. A result of `false` stands for the panic when the frames run out. */
module Loaders {
  import opened Wrappers
  import opened Bits
  import opened Entries
  import opened Walks
  import opened Forests
  import opened Paths
  import opened PhysMem
  import Frames = FrameAlloc
  import opened PageTables
  import opened Elfs
  import opened ByteViews
  import opened LoaderModels

  const PAGE_PRESENT: nat := 1
  const PAGE_WRITE: nat := 2

  /** An entry as the loader composes it. */
  function LoaderEntry(paddr: nat): nat {
    Or(Or(paddr, PAGE_WRITE), PAGE_PRESENT)
  }

  lemma LoaderEntryIs(frame: nat)
    requires frame < FRAME_LIMIT
    ensures LoaderEntry(frame * PAGE_SIZE) < WORD_LIMIT && TableFlags(LOADER_FLAGS) == LOADER_FLAGS
    ensures LoaderEntry(frame * PAGE_SIZE) == MakeEntry(frame * PAGE_SIZE, LOADER_FLAGS)
    ensures CanWriteLeaf(frame, 1, LOADER_FLAGS, LoaderEntry(frame * PAGE_SIZE))
  {
    Pow2Values();
    OrDisjoint(frame, PAGE_WRITE, 12);
    assert Pow2(1) == 2;
    OrDisjoint(frame * 2048 + 1, PAGE_PRESENT, 1);
    MakeIsSum(frame, LOADER_FLAGS);
    EntryMade(frame, LOADER_FLAGS);
  }

  /** The loader's page frames: handed out in order from one block of memory. */
  class FrameAlloc {
    const startAddress: nat
    const maxFrames: nat
    var numAllocatedFrames: nat

    /** The tables in the frames handed out, and the map they make up. */
    ghost var F: Forest
    ghost var M: map<nat, nat>
    /** The frames handed out for something else. */
    ghost var data: set<nat>

    function First(): nat {
      startAddress / PAGE_SIZE
    }

    ghost function Free(): set<nat>
      reads this
    {
      if numAllocatedFrames > maxFrames then {} else Frames.Interval(First() + numAllocatedFrames, maxFrames - numAllocatedFrames)
    }

    /** Frame `f` belongs to the block. */
    predicate Owns(f: nat) {
      First() <= f < First() + maxFrames
    }

    /** Every frame handed out holds a table of the tree or is recorded as data, and the tree maps `M`. */
    ghost predicate Holds(words: seq<Word>)
      reads this
    {
      && startAddress % PAGE_SIZE == 0 && numAllocatedFrames <= maxFrames
      && F.nodes.Keys + data == Frames.Interval(First(), numAllocatedFrames) && F.nodes.Keys !! data
      && TreeMaps(words, F, Free(), M)
    }

    /** `new`; the block comes from the firmware. */
    constructor (startAddress: nat, numFrames: nat)
      ensures this.startAddress == startAddress && maxFrames == numFrames && numAllocatedFrames == 0 && data == {}
    {
      this.startAddress, maxFrames, numAllocatedFrames, data := startAddress, numFrames, 0, {};
    }

    /** `alloc`. */
    method Alloc() returns (addr: Option<nat>)
      modifies this`numAllocatedFrames
      ensures addr.None? <==> old(numAllocatedFrames) >= maxFrames
      ensures addr.None? ==> numAllocatedFrames == old(numAllocatedFrames)
      ensures addr.Some? ==> addr.value == startAddress + old(numAllocatedFrames) * PAGE_SIZE
      ensures addr.Some? ==> numAllocatedFrames == old(numAllocatedFrames) + 1
    {
      if numAllocatedFrames >= maxFrames { return None; }
      addr := Some(startAddress + numAllocatedFrames * PAGE_SIZE);
      numAllocatedFrames := numAllocatedFrames + 1;
    }

    /** `alloc_zeroed`: the next free frame, cleared. */
    method AllocZeroed(pm: PhysicalMemory) returns (addr: Option<nat>)
      requires pm.Valid() && startAddress % PAGE_SIZE == 0 && Slot(First() + maxFrames, 0) <= |pm.words|
      modifies pm, this`numAllocatedFrames
      ensures pm.Valid()
      ensures addr.None? <==> old(numAllocatedFrames) >= maxFrames
      ensures addr.None? ==> pm.words == old(pm.words) && numAllocatedFrames == old(numAllocatedFrames)
      ensures addr.Some? ==> addr.value % PAGE_SIZE == 0 && addr.value / PAGE_SIZE in old(Free())
      ensures addr.Some? ==> Free() == old(Free()) - {addr.value / PAGE_SIZE}
      ensures addr.Some? ==> numAllocatedFrames == old(numAllocatedFrames) + 1 <= maxFrames
      ensures addr.Some? ==> addr.value / PAGE_SIZE == First() + old(numAllocatedFrames)
      ensures addr.Some? ==> Slot(addr.value / PAGE_SIZE, SLOTS) <= |pm.words|
      ensures addr.Some? ==> pm.words == ZeroFrame(old(pm.words), addr.value / PAGE_SIZE)
    {
      addr := Alloc();
      if addr.Some? {
        assert addr.value / PAGE_SIZE == First() + old(numAllocatedFrames);
        pm.ZeroPage(addr.value);
      }
    }
  }

  /** The entry at the end of the chain is present exactly while the walk still follows it. */
  lemma EntryDecides(words: seq<Word>, F0: Forest, free0: set<nat>, mem: seq<Word>, F: Forest, free: set<nat>,
                     root: nat, n: nat, tables: seq<nat>)
    requires LoopState(words, F0, free0, mem, F, free, root, n, 1, tables) && |tables| < 4 && LeafLevel(words, root, n) <= 1
    ensures Slot(tables[|tables| - 1], IndexAt(5 - |tables|, n)) < |mem|
    ensures var e, path := mem[Slot(tables[|tables| - 1], IndexAt(5 - |tables|, n))], PathFrom(words, root, 4, n);
      && (Present(e) ==> |tables| < |path| && path[|tables|] == FrameOf(e))
      && (!Present(e) ==> |path| <= |tables|)
  {
    var path, k := PathFrom(words, root, 4, n), |tables|;
    assert Link(mem, F, root, n, tables, k - 1);
    assert FrameOk(mem, F, tables[k - 1]);
    PathIsChain(words, F0, root, n);
    if k < |path| {
      PathEntry(words, F0, root, n, k - 1);
    } else {
      LastEntry(words, F0, mem, F, root, n, 1, tables);
      if k == |path| { ChainLeafLevel(words, F0, root, n, tables); }
    }
  }

  /** One turn of the loop of `map_page_4k`: the next table down, created if it is missing. */
  method NextTable(pm: PhysicalMemory, fa: FrameAlloc, ghost words: seq<Word>, ghost F0: Forest, ghost free0: set<nat>,
                   ghost F: Forest, ghost root: nat, ghost n: nat, ghost tables: seq<nat>, current: nat, index: nat)
    returns (next: Option<nat>, ghost F': Forest, ghost tables': seq<nat>)
    requires pm.Valid() && fa.startAddress % PAGE_SIZE == 0 && Slot(fa.First() + fa.maxFrames, 0) <= |pm.words|
    requires LoopState(words, F0, free0, pm.words, F, fa.Free(), root, n, 1, tables) && !F0.user
    requires 1 <= |tables| < 4 && LeafLevel(words, root, n) <= 1
    requires current == tables[|tables| - 1] * PAGE_SIZE && index == IndexAt(5 - |tables|, n)
    modifies pm, fa`numAllocatedFrames
    ensures pm.Valid() && |pm.words| == old(|pm.words|)
    ensures next.None? ==> fa.numAllocatedFrames == old(fa.numAllocatedFrames) >= fa.maxFrames
    ensures next.Some? ==> LoopState(words, F0, free0, pm.words, F', fa.Free(), root, n, 1, tables')
    ensures next.Some? ==> |tables'| == |tables| + 1 && next.value == tables'[|tables|] * PAGE_SIZE
    ensures next.Some? ==> fa.numAllocatedFrames <= fa.maxFrames || fa.numAllocatedFrames == old(fa.numAllocatedFrames)
  {
    hide LoopState, WalkFrom, PathFrom, LeafLevel, Frames.Interval, AddTable, LoaderEntry, Contains, Address;
    ghost var last, before := tables[|tables| - 1], pm.words;
    F', tables' := F, tables;
    EntryDecides(words, F0, free0, pm.words, F, fa.Free(), root, n, tables);
    assert current + index * 8 == SlotAddr(last, index);
    var entry := pm.Read(current + index * 8);
    EntryReads(entry);
    if !Contains(entry, PRESENT_BIT) {
      var addr := fa.AllocZeroed(pm);
      if addr.None? { return None, F', tables'; }
      ghost var c := addr.value / PAGE_SIZE;
      CanHang(words, F0, free0, before, F, old(fa.Free()), root, n, tables, c);
      var newEntry := LoaderEntry(addr.value);
      pm.Write(current + index * 8, newEntry);
      F' := AddTable(F, last, index, c);
      tables' := tables + [c];
      next := addr;
    } else {
      FollowState(words, F0, free0, pm.words, F, fa.Free(), root, n, 1, tables);
      tables' := tables + [PathFrom(words, root, 4, n)[|tables|]];
      next := Some(Address(entry));
    }
  }

  lemma CanHang(words: seq<Word>, F0: Forest, free0: set<nat>, mem: seq<Word>, F: Forest, free: set<nat>,
                root: nat, n: nat, tables: seq<nat>, c: nat)
    requires LoopState(words, F0, free0, mem, F, free, root, n, 1, tables) && !F0.user
    requires |PathFrom(words, root, 4, n)| <= |tables| < 4 && c in free
    ensures LoaderEntry(c * PAGE_SIZE) < WORD_LIMIT && Slot(c, SLOTS) <= |mem|
    ensures Slot(tables[|tables| - 1], IndexAt(5 - |tables|, n)) < |ZeroFrame(mem, c)| == |mem|
    ensures tables[|tables| - 1] in F.nodes && F.nodes[tables[|tables| - 1]].level > 1
    ensures var f, i := tables[|tables| - 1], IndexAt(5 - |tables|, n);
      LoopState(words, F0, free0, ZeroFrame(mem, c)[Slot(f, i) := LoaderEntry(c * PAGE_SIZE)], AddTable(F, f, i, c),
                free - {c}, root, n, 1, tables + [c])
  {
    hide WalkFrom, PathFrom, LoopState, ZeroFrame, AddTable, MakeEntry, LoaderEntry, IndexAt;
    FreeIsFrame(words, F0, free0, mem, F, free, root, n, tables, c);
    LoaderEntryIs(c);
    HangStep(words, F0, free0, mem, F, free, root, n, 1, tables, c, LOADER_FLAGS);
  }

  lemma FreeIsFrame(words: seq<Word>, F0: Forest, free0: set<nat>, mem: seq<Word>, F: Forest, free: set<nat>,
                    root: nat, n: nat, tables: seq<nat>, c: nat)
    requires LoopState(words, F0, free0, mem, F, free, root, n, 1, tables) && c in free
    ensures c < FRAME_LIMIT
  {}

  lemma TreeGives(words: seq<Word>, F: Forest, free: set<nat>, M: map<nat, nat>, n: nat)
    requires TreeMaps(words, F, free, M) && n < PAGES
    ensures Request(words, F, F.kroot, n) && LeafLevel(words, F.kroot, n) <= 1 && IsRoot(F, F.kroot) && !F.user
    ensures FramesFit(words, F, free)
  {}

  lemma LongEnough(words: seq<Word>, root: nat, n: nat)
    ensures |PathFrom(words, root, 4, n)| <= 4
  {}

  /** Only words of the loader's own frames differ. */
  ghost predicate Elsewhere(fa: FrameAlloc, words: seq<Word>, words': seq<Word>) {
    |words'| == |words| && forall s: nat | s < |words| && !fa.Owns(s / SLOTS) :: words'[s] == words[s]
  }

  /** The loop of `map_page_4k`: down to the table of the lowest level. */
  method FindTable(pm: PhysicalMemory, fa: FrameAlloc, ghost words: seq<Word>, ghost F0: Forest, ghost root: nat,
                   ghost n: nat, pageTable: nat, indices: seq<nat>)
    returns (table: Option<nat>, ghost F': Forest, ghost tables: seq<nat>)
    requires pm.Valid() && fa.startAddress % PAGE_SIZE == 0 && Slot(fa.First() + fa.maxFrames, 0) <= |pm.words|
    requires words == pm.words && Request(words, F0, root, n) && FramesFit(words, F0, fa.Free()) && !F0.user
    requires LeafLevel(words, root, n) <= 1 && pageTable == root * PAGE_SIZE && fa.numAllocatedFrames <= fa.maxFrames
    requires |indices| == 3 && forall d | 0 <= d < 3 :: indices[d] == IndexAt(4 - d, n)
    modifies pm, fa`numAllocatedFrames
    ensures pm.Valid() && |pm.words| == |words|
    ensures table.None? ==> fa.numAllocatedFrames >= fa.maxFrames
    ensures table.Some? ==> LoopState(words, F0, old(fa.Free()), pm.words, F', fa.Free(), root, n, 1, tables)
    ensures table.Some? ==> |tables| == 4 && table.value == tables[3] * PAGE_SIZE && fa.numAllocatedFrames <= fa.maxFrames
  {
    hide LoopState, WalkFrom, PathFrom, LeafLevel, Frames.Interval, Request, FramesFit;
    var current := pageTable;
    F', tables := F0, [root];
    StartState(words, F0, fa.Free(), root, n, 1);
    for d := 0 to 3
      invariant pm.Valid() && |pm.words| == |words| && |tables| == d + 1 && current == tables[d] * PAGE_SIZE
      invariant LoopState(words, F0, old(fa.Free()), pm.words, F', fa.Free(), root, n, 1, tables)
      invariant fa.numAllocatedFrames <= fa.maxFrames
    {
      var next;
      next, F', tables := NextTable(pm, fa, words, F0, old(fa.Free()), F', root, n, tables, current, indices[d]);
      if next.None? { return None, F', tables; }
      current := next.value;
    }
    return Some(current), F', tables;
  }

  /** `map_page_4k`: the page of `vaddr` is mapped to `paddr`, and memory outside the loader's
      frames stays as it is. */
  method MapPage4k(pm: PhysicalMemory, fa: FrameAlloc, pageTable: nat, vaddr: nat, paddr: nat) returns (ok: bool)
    requires pm.Valid() && fa.Holds(pm.words) && Slot(fa.First() + fa.maxFrames, 0) <= |pm.words|
    requires pageTable == fa.F.kroot * PAGE_SIZE && paddr % PAGE_SIZE == 0 && paddr / PAGE_SIZE < FRAME_LIMIT
    modifies pm, fa
    ensures pm.Valid() && |pm.words| == old(|pm.words|)
    ensures !ok ==> fa.numAllocatedFrames >= fa.maxFrames
    ensures ok ==> fa.Holds(pm.words) && fa.F.kroot == old(fa.F.kroot) && fa.data == old(fa.data)
    ensures ok ==> fa.M == old(fa.M)[Page(vaddr) := paddr / PAGE_SIZE] && Elsewhere(fa, old(pm.words), pm.words)
  {
    hide LoopState, WalkFrom, PathFrom, LeafLevel, Frames.Interval, Request, FramesFit, TreeMaps, Maintains, MapsBlock, Index,
      LoaderEntry, CanWriteLeaf, Elsewhere;
    ghost var words, F0, free0, M, n := pm.words, fa.F, fa.Free(), fa.M, Page(vaddr);
    TreeGives(words, F0, free0, M, n);
    IndexIsPath(vaddr);
    var (p4, p3, p2, p1) := Index(vaddr);
    var table;
    ghost var F', tables;
    table, F', tables := FindTable(pm, fa, words, F0, F0.kroot, n, pageTable, [p4, p3, p2]);
    if table.None? { return false; }
    LoaderEntryIs(paddr / PAGE_SIZE);
    assert paddr / PAGE_SIZE * PAGE_SIZE == paddr;
    LongEnough(words, F0.kroot, n);
    var entry := LoaderEntry(paddr);
    LeafFits(words, F0, free0, pm.words, F', fa.Free(), F0.kroot, n, 1, tables, paddr / PAGE_SIZE, LOADER_FLAGS, entry);
    assert table.value + p1 * 8 == SlotAddr(tables[3], p1);
    pm.Write(table.value + p1 * 8, entry);
    fa.F, fa.M := F', M[n := paddr / PAGE_SIZE];
    PageAdded(words, F0, free0, pm.words, F', fa.Free(), M, n, paddr / PAGE_SIZE);
    StillHolds(fa, words, F0, free0, pm.words, F', F0.kroot, n, old(fa.numAllocatedFrames), fa.data);
    return true;
  }

  /** What a call of `map_page_4k` means for the loader's frames. */
  lemma StillHolds(fa: FrameAlloc, words: seq<Word>, F: Forest, free: set<nat>, words': seq<Word>, F': Forest,
                   root: nat, n: nat, before: nat, data: set<nat>)
    requires fa.numAllocatedFrames <= fa.maxFrames && before <= fa.maxFrames
    requires F.nodes.Keys + data == Frames.Interval(fa.First(), before) && F.nodes.Keys !! data
    requires free == Frames.Interval(fa.First() + before, fa.maxFrames - before)
    requires Maintains(words, F, free, words', F', fa.Free(), root, n, 1)
    ensures F'.nodes.Keys + data == Frames.Interval(fa.First(), fa.numAllocatedFrames) && F'.nodes.Keys !! data
    ensures F'.kroot == F.kroot
    ensures Elsewhere(fa, words, words')
  {
    hide Valid, NewTablesServe, TopKept, FramesFit;
    forall f: nat ensures f in F'.nodes.Keys + data <==> Frames.Within(f, fa.First(), fa.numAllocatedFrames) {
      assert f in F.nodes.Keys + data <==> Frames.Within(f, fa.First(), before);
      assert f in fa.Free() ==> f in free;
    }
  }

  // Runs of pages.

  lemma AddOne(M: map<nat, nat>, vaddr: nat, paddr: nat, k: nat)
    requires paddr % PAGE_SIZE == 0
    ensures AddPages(M, vaddr, paddr, k + 1) ==
      AddPages(M, vaddr, paddr, k)[Page(vaddr + k * PAGE_SIZE) := (paddr + k * PAGE_SIZE) / PAGE_SIZE]
  {
    assert (paddr + k * PAGE_SIZE) / PAGE_SIZE == paddr / PAGE_SIZE + k;
  }

  lemma ElsewhereTrans(fa: FrameAlloc, words: seq<Word>, words1: seq<Word>, words2: seq<Word>)
    requires Elsewhere(fa, words, words1) && Elsewhere(fa, words1, words2)
    ensures Elsewhere(fa, words, words2)
  {}

  /** The loop that all three mapping functions share: pages in order, one call each. */
  method MapPages(pm: PhysicalMemory, fa: FrameAlloc, pageTable: nat, vaddr: nat, paddr: nat, size: nat) returns (ok: bool)
    requires pm.Valid() && fa.Holds(pm.words) && Slot(fa.First() + fa.maxFrames, 0) <= |pm.words|
    requires pageTable == fa.F.kroot * PAGE_SIZE && paddr % PAGE_SIZE == 0 && paddr + size <= FRAME_LIMIT * PAGE_SIZE
    modifies pm, fa
    ensures pm.Valid() && |pm.words| == old(|pm.words|)
    ensures !ok ==> fa.numAllocatedFrames >= fa.maxFrames
    ensures ok ==> fa.Holds(pm.words) && fa.F.kroot == old(fa.F.kroot) && fa.data == old(fa.data) && Elsewhere(fa, old(pm.words), pm.words)
    ensures ok ==> fa.M == AddPages(old(fa.M), vaddr, paddr, (size + 4095) / PAGE_SIZE)
  {
    hide FrameAlloc.Holds, Elsewhere, AddPages, Page;
    assert Elsewhere(fa, pm.words, pm.words) by { SameElsewhere(fa, pm.words); }
    NoPages(fa.M, vaddr, paddr);
    var off := 0;
    while off < size
      invariant off % PAGE_SIZE == 0 && off < size + PAGE_SIZE && pm.Valid() && |pm.words| == old(|pm.words|)
      invariant fa.Holds(pm.words) && fa.F.kroot == old(fa.F.kroot) && fa.data == old(fa.data) && Elsewhere(fa, old(pm.words), pm.words)
      invariant fa.M == AddPages(old(fa.M), vaddr, paddr, off / PAGE_SIZE)
    {
      ghost var before := pm.words;
      AddOne(old(fa.M), vaddr, paddr, off / PAGE_SIZE);
      assert off / PAGE_SIZE * PAGE_SIZE == off;
      ok := MapPage4k(pm, fa, pageTable, vaddr + off, paddr + off);
      if !ok { return; }
      ElsewhereTrans(fa, old(pm.words), before, pm.words);
      off := off + PAGE_SIZE;
    }
    return true;
  }

  lemma SameElsewhere(fa: FrameAlloc, words: seq<Word>)
    ensures Elsewhere(fa, words, words)
  {}

  lemma NoPages(M: map<nat, nat>, vaddr: nat, paddr: nat)
    ensures AddPages(M, vaddr, paddr, 0) == M
  {}

  /** `map_in_stack`: the top of the stack. */
  method MapInStack(pm: PhysicalMemory, fa: FrameAlloc, startPaddr: nat, startVaddr: nat, pageTable: nat)
    returns (ok: bool, top: nat)
    requires pm.Valid() && fa.Holds(pm.words) && Slot(fa.First() + fa.maxFrames, 0) <= |pm.words|
    requires pageTable == fa.F.kroot * PAGE_SIZE && startPaddr % PAGE_SIZE == 0
    requires startPaddr + STACK_SIZE <= FRAME_LIMIT * PAGE_SIZE
    modifies pm, fa
    ensures pm.Valid() && |pm.words| == old(|pm.words|)
    ensures !ok ==> fa.numAllocatedFrames >= fa.maxFrames
    ensures ok ==> fa.Holds(pm.words) && fa.F.kroot == old(fa.F.kroot) && fa.data == old(fa.data) && Elsewhere(fa, old(pm.words), pm.words)
    ensures ok ==> fa.M == AddPages(old(fa.M), startVaddr, startPaddr, STACK_PAGE_COUNT) && top == startVaddr + STACK_SIZE
  {
    hide FrameAlloc.Holds, Elsewhere, AddPages;
    ok := MapPages(pm, fa, pageTable, startVaddr, startPaddr, STACK_SIZE);
    top := startVaddr + STACK_SIZE;
  }

  /** `identity_map`. */
  method IdentityMap(pm: PhysicalMemory, fa: FrameAlloc, pageTable: nat) returns (ok: bool)
    requires pm.Valid() && fa.Holds(pm.words) && Slot(fa.First() + fa.maxFrames, 0) <= |pm.words|
    requires pageTable == fa.F.kroot * PAGE_SIZE
    modifies pm, fa
    ensures pm.Valid() && |pm.words| == old(|pm.words|)
    ensures !ok ==> fa.numAllocatedFrames >= fa.maxFrames
    ensures ok ==> fa.Holds(pm.words) && fa.F.kroot == old(fa.F.kroot) && fa.data == old(fa.data) && Elsewhere(fa, old(pm.words), pm.words)
    ensures ok ==> fa.M == AddPages(old(fa.M), 0, 0, IDENTITY_SIZE / PAGE_SIZE)
  {
    hide FrameAlloc.Holds, Elsewhere, AddPages;
    ok := MapPages(pm, fa, pageTable, 0, 0, IDENTITY_SIZE);
  }

  // The image.

  /** What the loader relies on; where the file breaks it, the loader overflows, panics at a slice
      or writes past the segment's pages. */
  predicate Sized(elf: Elf, h: ProgramHeader) {
    && h.memorySize + 0x1000 <= WORD_LIMIT
    && h.fileSize <= PageCount(h) * PAGE_SIZE && h.offset + h.fileSize <= |elf.bytes|
  }

  /** The alignment is asserted. */
  predicate Loadable(elf: Elf, h: ProgramHeader) {
    h.alignment == 0x1000 && Sized(elf, h)
  }

  /** Bytes outside the given run and the loader's frames stay. */
  ghost predicate BytesStay(fa: FrameAlloc, words: seq<Word>, words': seq<Word>, addr: nat, length: nat) {
    forall x: nat | !(addr <= x < addr + length) && !fa.Owns(x / PAGE_SIZE) :: ByteAt(words', x) == ByteAt(words, x)
  }

  ghost predicate SegmentAt(words: seq<Word>, elf: Elf, h: ProgramHeader, addr: nat) {
    forall i: nat | i < PageCount(h) * PAGE_SIZE :: ByteAt(words, addr + i) == SegmentByte(elf, h, i)
  }

  /** The frames from `addr` on are whole, installed, and not the loader's own. */
  ghost predicate Room(fa: FrameAlloc, words: seq<Word>, addr: nat, pages: nat) {
    && addr % PAGE_SIZE == 0 && Slot(addr / PAGE_SIZE + pages, 0) <= |words|
    && Frames.IntervalsApart(addr / PAGE_SIZE, pages, fa.First(), fa.maxFrames)
  }

  lemma ElsewhereBytes(fa: FrameAlloc, words: seq<Word>, words': seq<Word>, x: nat)
    requires Elsewhere(fa, words, words') && !fa.Owns(x / PAGE_SIZE)
    ensures ByteAt(words', x) == ByteAt(words, x)
  {
    assert x / 8 / SLOTS == x / PAGE_SIZE;
    SameWordsSameBytes(words, words', x);
  }

  /** Zeroing a run and copying the file's part over it leaves the segment's bytes. */
  lemma SegmentWritten(elf: Elf, h: ProgramHeader, addr: nat, words: seq<Word>, words1: seq<Word>, words2: seq<Word>)
    requires Loadable(elf, h) && BytesSet(words, words1, addr, Zeros(PageCount(h) * PAGE_SIZE))
    requires BytesSet(words1, words2, addr, elf.bytes[h.offset..h.offset + h.fileSize])
    ensures SegmentAt(words2, elf, h, addr) && |words2| == |words|
    ensures forall x: nat | !(addr <= x < addr + PageCount(h) * PAGE_SIZE) :: ByteAt(words2, x) == ByteAt(words, x)
    ensures forall s: nat | s < |words| && (8 * s + 8 <= addr || addr + PageCount(h) * PAGE_SIZE <= 8 * s) ::
      words2[s] == words[s]
  {
    hide ByteAt;
    forall i: nat | i < PageCount(h) * PAGE_SIZE ensures ByteAt(words2, addr + i) == SegmentByte(elf, h, i) {
      assert ByteAt(words1, addr + i) == 0;
    }
  }

  /** The tables do not notice the image being written. */
  lemma ImageMissesTables(fa: FrameAlloc, words: seq<Word>, words': seq<Word>, addr: nat, pages: nat)
    requires fa.Holds(words) && Room(fa, words, addr, pages) && |words'| == |words|
    requires forall s: nat | s < |words| && (8 * s + 8 <= addr || addr + pages * PAGE_SIZE <= 8 * s) :: words'[s] == words[s]
    ensures fa.Holds(words')
  {
    forall s: nat | s < |words| && s / SLOTS in fa.F.nodes ensures words'[s] == words[s] {
      assert s / SLOTS in fa.F.nodes.Keys + fa.data;
      assert fa.Owns(s / SLOTS);
    }
    TreeStays(words, words', fa.F, fa.Free(), fa.M);
  }

  /** The body of the loop of `map_in_kernel`, for a segment that goes to `addr`. */
  method LoadSegment(pm: PhysicalMemory, fa: FrameAlloc, elf: Elf, h: ProgramHeader, addr: nat, pageTable: nat)
    returns (ok: bool)
    requires pm.Valid() && fa.Holds(pm.words) && Slot(fa.First() + fa.maxFrames, 0) <= |pm.words|
    requires pageTable == fa.F.kroot * PAGE_SIZE && Loadable(elf, h) && Room(fa, pm.words, addr, PageCount(h))
    modifies pm, fa
    ensures pm.Valid() && |pm.words| == old(|pm.words|)
    ensures !ok ==> fa.numAllocatedFrames >= fa.maxFrames
    ensures ok ==> fa.Holds(pm.words) && fa.F.kroot == old(fa.F.kroot) && fa.data == old(fa.data)
    ensures ok ==> fa.M == AddPages(old(fa.M), h.vaddr, addr, PageCount(h)) && SegmentAt(pm.words, elf, h, addr)
    ensures ok ==> BytesStay(fa, old(pm.words), pm.words, addr, PageCount(h) * PAGE_SIZE)
  {
    hide FrameAlloc.Holds, Elsewhere, AddPages, BytesSet, ByteAt, SegmentAt;
    var pageCount := (h.memorySize + (h.alignment - 1)) / h.alignment;
    ZeroBytes(pm, addr, pageCount * 0x1000);
    ghost var zeroed := pm.words;
    SameSize(old(pm.words), zeroed, addr, Zeros(pageCount * 0x1000));
    if h.fileSize > 0 {
      CopyBytes(pm, addr, elf.bytes[h.offset..h.offset + h.fileSize]);
    } else {
      StartBytes(zeroed, addr);
      assert elf.bytes[h.offset..h.offset + h.fileSize] == [];
    }
    ghost var written := pm.words;
    SegmentWritten(elf, h, addr, old(pm.words), zeroed, written);
    ImageMissesTables(fa, old(pm.words), written, addr, pageCount);
    ok := MapPages(pm, fa, pageTable, h.vaddr, addr, h.memorySize);
    if !ok { return; }
    BytesAfterMapping(fa, old(pm.words), written, pm.words, elf, h, addr);
  }

  lemma BytesAfterMapping(fa: FrameAlloc, words: seq<Word>, written: seq<Word>, words': seq<Word>, elf: Elf, h: ProgramHeader,
                          addr: nat)
    requires Room(fa, words, addr, PageCount(h)) && SegmentAt(written, elf, h, addr) && Elsewhere(fa, written, words')
    requires forall x: nat | !(addr <= x < addr + PageCount(h) * PAGE_SIZE) :: ByteAt(written, x) == ByteAt(words, x)
    ensures SegmentAt(words', elf, h, addr) && BytesStay(fa, words, words', addr, PageCount(h) * PAGE_SIZE)
  {
    hide ByteAt, Elsewhere;
    forall i: nat | i < PageCount(h) * PAGE_SIZE ensures ByteAt(words', addr + i) == SegmentByte(elf, h, i) {
      ElsewhereBytes(fa, written, words', addr + i);
    }
    forall x: nat | !(addr <= x < addr + PageCount(h) * PAGE_SIZE) && !fa.Owns(x / PAGE_SIZE)
      ensures ByteAt(words', x) == ByteAt(words, x)
    {
      ElsewhereBytes(fa, written, words', x);
    }
  }

  /** The segments that the loader takes from a file. */
  function LoadsOf(elf: Elf): seq<ProgramHeader>
    requires elf.TableFits()
  {
    Loads(elf.HeadersFrom(0))
  }

  predicate AllLoadable(elf: Elf, loads: seq<ProgramHeader>) {
    forall k | 0 <= k < |loads| :: Loadable(elf, loads[k])
  }

  lemma LoadsNext(loads: seq<ProgramHeader>, h: ProgramHeader, rest: seq<ProgramHeader>)
    ensures h.typ == Load ==> loads + Loads([h] + rest) == (loads + [h]) + Loads(rest)
    ensures h.typ != Load ==> loads + Loads([h] + rest) == loads + Loads(rest)
  {
    assert ([h] + rest)[1..] == rest;
    if h.typ == Load { assert loads + ([h] + Loads(rest)) == (loads + [h]) + Loads(rest); }
  }

  lemma {:induction false} PagesGrow(a: seq<ProgramHeader>, b: seq<ProgramHeader>)
    ensures TotalPages(a) <= TotalPages(a + b)
    decreases |b|
  {
    if b == [] { assert a + b == a; } else {
      PagesGrow(a, b[..|b| - 1]);
      assert (a + b)[..|a + b| - 1] == a + b[..|b| - 1];
    }
  }

  lemma PagesAppend(a: seq<ProgramHeader>, h: ProgramHeader)
    ensures TotalPages(a + [h]) == TotalPages(a) + PageCount(h)
  {
    assert (a + [h])[..|a|] == a;
  }

  /** The sums of `get_page_count` stay below 2^64. */
  predicate NoOverflow(loads: seq<ProgramHeader>) {
    forall k | 0 <= k < |loads| :: loads[k].memorySize + 0x1000 <= WORD_LIMIT
  }

  predicate AllAligned(loads: seq<ProgramHeader>) {
    forall k | 0 <= k < |loads| :: loads[k].alignment == 0x1000
  }

  /** `get_page_count`: the pages of all segments and of the stack; it panics exactly when a segment
      has another alignment than 4096. */
  method GetPageCount(elf: Elf) returns (total: Option<nat>)
    requires elf.TableFits() && NoOverflow(LoadsOf(elf))
    ensures total.None? <==> !AllAligned(LoadsOf(elf))
    ensures total.Some? ==> total.value == TotalPages(LoadsOf(elf)) + STACK_PAGE_COUNT
  {
    hide ParseHeader, Loads, Elf.HeadersFrom, TotalPages;
    var pages: nat := 0;
    ghost var loads: seq<ProgramHeader> := [];
    var iter := new ProgramHeaderIter(elf);
    NoLoads(elf);
    while true
      invariant iter.elf == elf && iter.index <= elf.numEntries && pages == TotalPages(loads) && AllAligned(loads)
      invariant LoadsOf(elf) == loads + Loads(elf.HeadersFrom(iter.index))
      decreases elf.numEntries - iter.index
    {
      ghost var before := iter.index;
      var header := iter.Next();
      if header.None? { break; }
      LoadsNext(loads, header.value, elf.HeadersFrom(iter.index));
      if header.value.typ != Load { continue; }
      PagesAppend(loads, header.value);
      assert LoadsOf(elf)[|loads|] == header.value;
      if header.value.alignment != 0x1000 { return None; }
      loads := loads + [header.value];
      pages := pages + (header.value.memorySize + (header.value.alignment - 1)) / header.value.alignment;
    }
    NoLoads(elf);
    assert loads + [] == loads;
    return Some(pages + STACK_PAGE_COUNT);
  }

  lemma NoLoads(elf: Elf)
    requires elf.TableFits()
    ensures LoadsOf(elf) == [] + Loads(elf.HeadersFrom(0)) && Loads([]) == [] && TotalPages([]) == 0
  {}

  /** What `map_in_kernel` has done once it has loaded `loads`. */
  ghost predicate ImageLoaded(words: seq<Word>, M: map<nat, nat>, elf: Elf, start: nat, loads: seq<ProgramHeader>,
                              currentOffset: nat, endAddr: nat)
  {
    && M == ImageMap(start, loads) && ImageAt(words, elf, start, loads)
    && currentOffset == TotalPages(loads) * PAGE_SIZE && endAddr == EndVaddr(loads)
  }

  lemma NothingLoaded(words: seq<Word>, elf: Elf, start: nat)
    ensures ImageLoaded(words, map[], elf, start, [], 0, 0)
  {}

  lemma SegmentBelow(fa: FrameAlloc, words: seq<Word>, start: nat, loads: seq<ProgramHeader>, h: ProgramHeader, pages: nat)
    requires Room(fa, words, start, pages) && TotalPages(loads) + PageCount(h) <= pages
    ensures Room(fa, words, start + TotalPages(loads) * PAGE_SIZE, PageCount(h))
  {
    assert (start + TotalPages(loads) * PAGE_SIZE) / PAGE_SIZE == start / PAGE_SIZE + TotalPages(loads);
  }

  lemma EarlierSegment(start: nat, loads: seq<ProgramHeader>, j: nat)
    requires j < |loads|
    ensures SegmentStart(start, loads, j) + PageCount(loads[j]) * PAGE_SIZE <= start + TotalPages(loads) * PAGE_SIZE
    ensures start <= SegmentStart(start, loads, j)
  {
    assert loads[..j + 1] == loads[..j] + [loads[j]];
    PagesAppend(loads[..j], loads[j]);
    assert loads == loads[..j + 1] + loads[j + 1..];
    PagesGrow(loads[..j + 1], loads[j + 1..]);
  }

  /** One more segment behind the others. */
  lemma ImageGrows(fa: FrameAlloc, words: seq<Word>, words': seq<Word>, elf: Elf, start: nat, loads: seq<ProgramHeader>,
                   h: ProgramHeader, pages: nat)
    requires ImageAt(words, elf, start, loads) && Room(fa, words, start, pages) && TotalPages(loads) <= pages
    requires SegmentAt(words', elf, h, start + TotalPages(loads) * PAGE_SIZE)
    requires BytesStay(fa, words, words', start + TotalPages(loads) * PAGE_SIZE, PageCount(h) * PAGE_SIZE)
    ensures ImageAt(words', elf, start, loads + [h])
  {
    hide ByteAt, SegmentStart, PageCount, BytesStay, Room, SegmentAt, TotalPages, SegmentByte;
    var more := loads + [h];
    forall j, i: nat | 0 <= j < |more| && i < PageCount(more[j]) * PAGE_SIZE
      ensures ByteAt(words', SegmentStart(start, more, j) + i) == SegmentByte(elf, more[j], i)
    {
      if j < |loads| {
        OldSegmentByte(fa, words, words', start, loads, h, pages, j, i);
      } else {
        NewSegmentByte(words', elf, start, loads, h, i);
      }
    }
  }

  lemma OldSegmentByte(fa: FrameAlloc, words: seq<Word>, words': seq<Word>, start: nat, loads: seq<ProgramHeader>,
                       h: ProgramHeader, pages: nat, j: nat, i: nat)
    requires Room(fa, words, start, pages) && TotalPages(loads) <= pages && j < |loads| && i < PageCount(loads[j]) * PAGE_SIZE
    requires BytesStay(fa, words, words', start + TotalPages(loads) * PAGE_SIZE, PageCount(h) * PAGE_SIZE)
    ensures SegmentStart(start, loads + [h], j) == SegmentStart(start, loads, j)
    ensures ByteAt(words', SegmentStart(start, loads, j) + i) == ByteAt(words, SegmentStart(start, loads, j) + i)
  {
    hide ByteAt, PageCount, Room;
    assert (loads + [h])[..j] == loads[..j];
    EarlierSegment(start, loads, j);
    OutsideFrames(fa, words, start, pages, SegmentStart(start, loads, j) + i);
  }

  lemma NewSegmentByte(words: seq<Word>, elf: Elf, start: nat, loads: seq<ProgramHeader>, h: ProgramHeader, i: nat)
    requires SegmentAt(words, elf, h, start + TotalPages(loads) * PAGE_SIZE) && i < PageCount(h) * PAGE_SIZE
    ensures ByteAt(words, SegmentStart(start, loads + [h], |loads|) + i) == SegmentByte(elf, h, i)
  {
    hide ByteAt, PageCount, TotalPages, SegmentByte;
    assert (loads + [h])[..|loads|] == loads;
  }

  lemma OutsideFrames(fa: FrameAlloc, words: seq<Word>, start: nat, pages: nat, x: nat)
    requires Room(fa, words, start, pages) && start <= x < start + pages * PAGE_SIZE
    ensures !fa.Owns(x / PAGE_SIZE)
  {
    assert start / PAGE_SIZE <= x / PAGE_SIZE < start / PAGE_SIZE + pages;
  }

  lemma SegmentDone(fa: FrameAlloc, words: seq<Word>, words': seq<Word>, M: map<nat, nat>, M': map<nat, nat>, elf: Elf, start: nat,
                    loads: seq<ProgramHeader>, h: ProgramHeader, currentOffset: nat, endAddr: nat, pages: nat)
    requires ImageLoaded(words, M, elf, start, loads, currentOffset, endAddr) && Room(fa, words, start, pages)
    requires TotalPages(loads) <= pages && SegmentAt(words', elf, h, start + currentOffset)
    requires BytesStay(fa, words, words', start + currentOffset, PageCount(h) * PAGE_SIZE)
    requires M' == AddPages(M, h.vaddr, start + currentOffset, PageCount(h))
    ensures ImageLoaded(words', M', elf, start, loads + [h], currentOffset + PageCount(h) * PAGE_SIZE,
                        if SegmentEnd(h) > endAddr then SegmentEnd(h) else endAddr)
  {
    hide ByteAt, AddPages, SegmentAt, BytesStay, ImageAt;
    ImageGrows(fa, words, words', elf, start, loads, h, pages);
    PagesAppend(loads, h);
    assert Front(loads + [h]) == loads && (loads + [h])[..|loads|] == loads;
  }

  /** `map_in_kernel`: the physical and virtual ends of the loaded image. */
  method MapInKernel(pm: PhysicalMemory, fa: FrameAlloc, elf: Elf, start: nat, pageTable: nat)
    returns (ok: bool, endPaddr: nat, endVaddr: nat)
    requires pm.Valid() && fa.Holds(pm.words) && fa.M == map[] && Slot(fa.First() + fa.maxFrames, 0) <= |pm.words|
    requires pageTable == fa.F.kroot * PAGE_SIZE && elf.TableFits() && AllLoadable(elf, LoadsOf(elf))
    requires Room(fa, pm.words, start, TotalPages(LoadsOf(elf)))
    modifies pm, fa
    ensures pm.Valid() && |pm.words| == old(|pm.words|)
    ensures !ok ==> fa.numAllocatedFrames >= fa.maxFrames
    ensures ok ==> fa.Holds(pm.words) && fa.F.kroot == old(fa.F.kroot) && fa.data == old(fa.data)
    ensures ok ==> fa.M == ImageMap(start, LoadsOf(elf)) && ImageAt(pm.words, elf, start, LoadsOf(elf))
    ensures ok ==> endPaddr == SegmentStart(start, LoadsOf(elf), |LoadsOf(elf)|) && endVaddr == EndVaddr(LoadsOf(elf))
  {
    hide ParseHeader, Loads, Elf.HeadersFrom, TotalPages, FrameAlloc.Holds, ImageLoaded, Room, AddPages, SegmentAt, BytesStay;
    ghost var all := LoadsOf(elf);
    ghost var loads: seq<ProgramHeader> := [];
    var currentOffset: nat, endAddr: nat := 0, 0;
    var iter := new ProgramHeaderIter(elf);
    NoLoads(elf);
    NothingLoaded(pm.words, elf, start);
    while true
      invariant iter.elf == elf && iter.index <= elf.numEntries && fresh(iter)
      invariant all == loads + Loads(elf.HeadersFrom(iter.index))
      invariant pm.Valid() && |pm.words| == old(|pm.words|) && fa.Holds(pm.words) && fa.F.kroot == old(fa.F.kroot) && fa.data == old(fa.data)
      invariant ImageLoaded(pm.words, fa.M, elf, start, loads, currentOffset, endAddr)
      decreases elf.numEntries - iter.index
    {
      ghost var words, M := pm.words, fa.M;
      var header := iter.Next();
      if header.None? { break; }
      var h := header.value;
      LoadsNext(loads, h, elf.HeadersFrom(iter.index));
      if h.typ != Load { continue; }
      assert all[|loads|] == h;
      NextSegment(fa, old(pm.words), words, M, elf, start, all, loads, h, Loads(elf.HeadersFrom(iter.index)),
                  currentOffset, endAddr);
      var addr := start + currentOffset;
      var pageCount := (h.memorySize + (h.alignment - 1)) / h.alignment;
      ok := LoadSegment(pm, fa, elf, h, addr, pageTable);
      if !ok { return false, 0, 0; }
      SegmentDone(fa, words, pm.words, M, fa.M, elf, start, loads, h, currentOffset, endAddr, TotalPages(all));
      loads := loads + [h];
      currentOffset := currentOffset + pageCount * 4096;
      var end := h.vaddr + pageCount * 4096;
      if end > endAddr { endAddr := end; }
    }
    NoLoads(elf);
    assert loads + [] == loads;
    AllLoaded(pm.words, fa.M, elf, start, all, currentOffset, endAddr);
    return true, start + currentOffset, endAddr;
  }

  lemma AllLoaded(words: seq<Word>, M: map<nat, nat>, elf: Elf, start: nat, loads: seq<ProgramHeader>,
                  currentOffset: nat, endAddr: nat)
    requires ImageLoaded(words, M, elf, start, loads, currentOffset, endAddr)
    ensures M == ImageMap(start, loads) && ImageAt(words, elf, start, loads)
    ensures start + currentOffset == SegmentStart(start, loads, |loads|) && endAddr == EndVaddr(loads)
  {
    assert loads[..|loads|] == loads;
  }

  lemma NextSegment(fa: FrameAlloc, words0: seq<Word>, words: seq<Word>, M: map<nat, nat>, elf: Elf, start: nat,
                    all: seq<ProgramHeader>, loads: seq<ProgramHeader>, h: ProgramHeader, rest: seq<ProgramHeader>,
                    currentOffset: nat, endAddr: nat)
    requires ImageLoaded(words, M, elf, start, loads, currentOffset, endAddr) && all == (loads + [h]) + rest
    requires Room(fa, words0, start, TotalPages(all)) && |words| == |words0|
    ensures Room(fa, words, start, TotalPages(all)) && TotalPages(loads) <= TotalPages(all)
    ensures Room(fa, words, start + currentOffset, PageCount(h))
  {
    hide ImageAt, ImageMap, EndVaddr, PageCount;
    PagesAppend(loads, h);
    PagesGrow(loads + [h], rest);
    SegmentBelow(fa, words, start, loads, h, TotalPages(all));
  }

  // The whole.

  lemma {:induction false} IntervalSize(first: nat, count: nat)
    ensures |Frames.Interval(first, count)| == count
  {
    if count == 0 {
      assert Frames.Interval(first, 0) == {};
    } else {
      IntervalSize(first, count - 1);
      assert Frames.Interval(first, count) == Frames.Interval(first, count - 1) + {first + count - 1} by {
        forall f: nat ensures f in Frames.Interval(first, count) <==> f in Frames.Interval(first, count - 1) + {first + count - 1} {
          assert Frames.Within(f, first, count) <==> Frames.Within(f, first, count - 1) || f == first + count - 1;
        }
      }
    }
  }

  /** The frames handed out for tables are the root and one for each 2M, 1G and 512G block with a mapped page. */
  lemma FramesAreBlocks(fa: FrameAlloc, words: seq<Word>)
    requires fa.Holds(words)
    ensures fa.numAllocatedFrames == 1 + |TableBlocks(fa.M.Keys)| + |fa.data|
  {
    hide TreeMaps, TableBlocks;
    IntervalSize(fa.First(), fa.numAllocatedFrames);
    TablesAreBlocks(words, fa.F, fa.Free(), fa.M);
    assert |fa.F.nodes| == |fa.F.nodes.Keys|;
  }

  lemma {:induction false} IdentityKeys(count: nat)
    requires count <= PAGES
    ensures AddPages(map[], 0, 0, count).Keys == Frames.Interval(0, count)
  {
    if count > 0 {
      IdentityKeys(count - 1);
      assert Page((count - 1) * PAGE_SIZE) == count - 1;
      forall f: nat ensures f in Frames.Interval(0, count) <==> f in Frames.Interval(0, count - 1) + {count - 1} {
        assert Frames.Within(f, 0, count) <==> Frames.Within(f, 0, count - 1) || f == count - 1;
      }
    }
  }

  lemma IdentityBlocks()
    ensures TableBlocks(Frames.Interval(0, 4096)) ==
      {(1, 0), (1, 1), (1, 2), (1, 3), (1, 4), (1, 5), (1, 6), (1, 7), (2, 0), (3, 0)}
  {
    var pages := Frames.Interval(0, 4096);
    forall k: nat | k < 8 ensures (1, k) in BlocksAt(pages, 1) {
      assert Frames.Within(k * 512, 0, 4096) && Block(2, k * 512) == k;
    }
    assert Frames.Within(0, 0, 4096) && (2, 0) in BlocksAt(pages, 2) && (3, 0) in BlocksAt(pages, 3);
  }

  lemma TenBlocks()
    ensures |{(1, 0), (1, 1), (1, 2), (1, 3), (1, 4), (1, 5), (1, 6), (1, 7), (2, 0), (3, 0)}| == 10
  {}

  /** On an empty root the identity map takes exactly ten tables. */
  lemma IdentityTakesTen(fa: FrameAlloc, words: seq<Word>)
    requires fa.Holds(words) && fa.M == AddPages(map[], 0, 0, IDENTITY_SIZE / PAGE_SIZE) && fa.data == {}
    ensures fa.numAllocatedFrames == 1 + 10
  {
    assert IDENTITY_SIZE / PAGE_SIZE == 4096 <= PAGES;
    hide *;
    FramesAreBlocks(fa, words);
    IdentityKeys(4096);
    IdentityBlocks();
    TenBlocks();
  }

  lemma ElsewhereStays(fa: FrameAlloc, words: seq<Word>, words': seq<Word>, addr: nat, length: nat)
    requires Elsewhere(fa, words, words')
    ensures BytesStay(fa, words, words', addr, length)
  {
    hide ByteAt, Elsewhere;
    forall x: nat | !(addr <= x < addr + length) && !fa.Owns(x / PAGE_SIZE) ensures ByteAt(words', x) == ByteAt(words, x) {
      ElsewhereBytes(fa, words, words', x);
    }
  }

  /** The image survives what is written behind it, before it or in the loader's own frames. */
  lemma ImageKept(fa: FrameAlloc, words: seq<Word>, words': seq<Word>, elf: Elf, start: nat, loads: seq<ProgramHeader>,
                  addr: nat, length: nat)
    requires ImageAt(words, elf, start, loads) && Room(fa, words, start, TotalPages(loads))
    requires BytesStay(fa, words, words', addr, length)
    requires Frames.IntervalsApart(start, TotalPages(loads) * PAGE_SIZE, addr, length)
    ensures ImageAt(words', elf, start, loads)
  {
    hide ByteAt, SegmentStart, PageCount, TotalPages, SegmentByte, Room;
    forall j, i: nat | 0 <= j < |loads| && i < PageCount(loads[j]) * PAGE_SIZE
      ensures ByteAt(words', SegmentStart(start, loads, j) + i) == SegmentByte(elf, loads[j], i)
    {
      EarlierSegment(start, loads, j);
      OutsideFrames(fa, words, start, TotalPages(loads), SegmentStart(start, loads, j) + i);
    }
  }

  lemma RoomBelow(fa: FrameAlloc, words: seq<Word>, words': seq<Word>, start: nat, loads: seq<ProgramHeader>)
    requires Room(fa, words, start, TotalPages(loads) + STACK_PAGE_COUNT) && |words'| == |words|
    ensures Room(fa, words', start, TotalPages(loads))
    ensures SegmentStart(start, loads, |loads|) == start + TotalPages(loads) * PAGE_SIZE
  {
    assert loads[..|loads|] == loads;
  }

  lemma StartHolds(fa: FrameAlloc, words: seq<Word>, c: nat)
    requires fa.startAddress % PAGE_SIZE == 0 && fa.numAllocatedFrames == 1 <= fa.maxFrames && c == fa.First()
    requires EmptyTable(words, c) && c + fa.maxFrames <= FRAME_LIMIT && Slot(c + fa.maxFrames, 0) <= |words|
    requires fa.F == FirstForest(c, false) && fa.M == map[] && fa.data == {}
    ensures fa.Holds(words)
  {
    forall f: nat ensures f in Frames.Interval(fa.First(), 1) <==> f == c {
      assert Frames.Within(f, fa.First(), 1) <==> f == c;
    }
    assert FramesFit(words, fa.F, fa.Free()) by {
      forall f | f in fa.Free() ensures f !in fa.F.nodes && f < FRAME_LIMIT && Slot(f, SLOTS) <= |words| {
        assert Frames.Within(f, fa.First() + 1, fa.maxFrames - 1);
      }
    }
    EmptyIsNothing(words, c);
    StartTree(words, c, fa.Free());
  }

  /** The first part of `efi_main`: the root, the image, the stack above it and the identity map. */
  method BuildTable(pm: PhysicalMemory, fa: FrameAlloc, elf: Elf, kernelStart: nat)
    returns (ok: bool, pageTable: nat, stackEnd: nat)
    requires pm.Valid() && fa.startAddress % PAGE_SIZE == 0 && fa.numAllocatedFrames == 0 && fa.data == {}
    requires Slot(fa.First() + fa.maxFrames, 0) <= |pm.words| && elf.TableFits() && AllLoadable(elf, LoadsOf(elf))
    requires Room(fa, pm.words, kernelStart, TotalPages(LoadsOf(elf)) + STACK_PAGE_COUNT)
    modifies pm, fa
    ensures pm.Valid() && |pm.words| == old(|pm.words|) && (ok ==> fa.data == {})
    ensures !ok ==> fa.numAllocatedFrames >= fa.maxFrames
    ensures ok ==> pageTable == fa.F.kroot * PAGE_SIZE && stackEnd == EndVaddr(LoadsOf(elf)) + STACK_SIZE
    ensures ok ==> fa.Holds(pm.words) && fa.M == KernelMap(kernelStart, LoadsOf(elf))
    ensures ok ==> ImageAt(pm.words, elf, kernelStart, LoadsOf(elf))
  {
    hide TreeMaps, AddPages, ImageAt, ImageMap, LoadsOf, Room, EndVaddr, TotalPages, Elsewhere, SegmentStart, BytesStay;
    ghost var loads, words := LoadsOf(elf), pm.words;
    ok, pageTable, stackEnd := false, 0, 0;
    var root := fa.AllocZeroed(pm);
    if root.None? { return; }
    pageTable := root.value;
    fa.F, fa.M := FirstForest(root.value / PAGE_SIZE, false), map[];
    BelowLimit(pm, fa.First() + fa.maxFrames);
    StartHolds(fa, pm.words, root.value / PAGE_SIZE);
    RoomBelow(fa, words, pm.words, kernelStart, loads);
    var endPaddr, endVaddr;
    ok, endPaddr, endVaddr := MapInKernel(pm, fa, elf, kernelStart, pageTable);
    if !ok { return; }
    ghost var loaded := pm.words;
    StackFits(fa, words, pm, kernelStart, loads);
    ok, stackEnd := MapInStack(pm, fa, endPaddr, endVaddr, pageTable);
    if !ok { return; }
    ghost var stacked := pm.words;
    ok := IdentityMap(pm, fa, pageTable);
    if !ok { return; }
    ElsewhereTrans(fa, loaded, stacked, pm.words);
    RoomBelow(fa, words, loaded, kernelStart, loads);
    ElsewhereStays(fa, loaded, pm.words, kernelStart, 0);
    ImageKept(fa, loaded, pm.words, elf, kernelStart, loads, kernelStart, 0);
  }

  /** The bytes of a page that was copied in. */
  ghost predicate CodeAt(words: seq<Word>, addr: nat, code: seq<Byte>) {
    forall i: nat | i < |code| :: ByteAt(words, addr + i) == code[i]
  }

  lemma CodeWritten(fa: FrameAlloc, words: seq<Word>, written: seq<Word>, words': seq<Word>, addr: nat, code: seq<Byte>)
    requires Room(fa, words, addr, 1) && |code| <= PAGE_SIZE && BytesSet(words, written, addr, code) && Elsewhere(fa, written, words')
    ensures CodeAt(words', addr, code) && BytesStay(fa, words, words', addr, PAGE_SIZE)
  {
    hide ByteAt, Elsewhere;
    forall i: nat | i < |code| ensures ByteAt(words', addr + i) == code[i] {
      OutsideFrames(fa, words, addr, 1, addr + i);
      ElsewhereBytes(fa, written, words', addr + i);
    }
    ElsewhereStays(fa, written, words', addr, PAGE_SIZE);
  }

  lemma CodeMissesTables(fa: FrameAlloc, words: seq<Word>, written: seq<Word>, addr: nat, code: seq<Byte>)
    requires fa.Holds(words) && Room(fa, words, addr, 1) && |code| <= PAGE_SIZE && BytesSet(words, written, addr, code)
    ensures fa.Holds(written) && |written| == |words|
  {
    hide FrameAlloc.Holds, ByteAt;
    ImageMissesTables(fa, words, written, addr, 1);
  }

  /** `prepare_trampoline`, for the page that the firmware gave for it. */
  method PrepareTrampoline(pm: PhysicalMemory, fa: FrameAlloc, code: seq<Byte>, addr: nat, pageTable: nat) returns (ok: bool)
    requires pm.Valid() && fa.Holds(pm.words) && Slot(fa.First() + fa.maxFrames, 0) <= |pm.words|
    requires pageTable == fa.F.kroot * PAGE_SIZE && |code| <= PAGE_SIZE && Room(fa, pm.words, addr, 1)
    modifies pm, fa
    ensures pm.Valid() && |pm.words| == old(|pm.words|)
    ensures !ok ==> fa.numAllocatedFrames >= fa.maxFrames
    ensures ok ==> fa.Holds(pm.words) && fa.F.kroot == old(fa.F.kroot) && fa.data == old(fa.data)
    ensures ok ==> fa.M == old(fa.M)[Page(addr) := addr / PAGE_SIZE]
    ensures ok ==> CodeAt(pm.words, addr, code) && BytesStay(fa, old(pm.words), pm.words, addr, PAGE_SIZE)
  {
    hide FrameAlloc.Holds, Elsewhere, BytesSet, ByteAt, CodeAt, BytesStay, Page;
    CopyBytes(pm, addr, code);
    ghost var written := pm.words;
    CodeMissesTables(fa, old(pm.words), written, addr, code);
    BelowLimit(pm, addr / PAGE_SIZE + 1);
    ok := MapPage4k(pm, fa, pageTable, addr, addr);
    if ok { CodeWritten(fa, old(pm.words), written, pm.words, addr, code); }
  }

  lemma PageTaken(fa: FrameAlloc, words: seq<Word>, words': seq<Word>, F: Forest, M: map<nat, nat>, free: set<nat>, c: nat)
    requires TreeMaps(words, F, free + {c}, M) && words' == ZeroFrame(words, c) && c in free + {c} && c !in free
    requires Slot(c, SLOTS) <= |words| && fa.Owns(c)
    ensures TreeMaps(words', F, free, M) && Elsewhere(fa, words, words') && c !in F.nodes && c < FRAME_LIMIT
  {
    TreeStays(words, words', F, free + {c}, M);
  }

  /** `alloc_zeroed` for the page of the boot information. */
  method TakePage(pm: PhysicalMemory, fa: FrameAlloc) returns (addr: Option<nat>)
    requires pm.Valid() && fa.Holds(pm.words) && Slot(fa.First() + fa.maxFrames, 0) <= |pm.words|
    modifies pm, fa
    ensures pm.Valid() && |pm.words| == old(|pm.words|)
    ensures addr.None? ==> fa.numAllocatedFrames >= fa.maxFrames
    ensures addr.Some? ==> addr.value % PAGE_SIZE == 0 && addr.value / PAGE_SIZE < FRAME_LIMIT && fa.Owns(addr.value / PAGE_SIZE)
    ensures addr.Some? ==> addr.value / PAGE_SIZE !in old(fa.data) && fa.data == old(fa.data) + {addr.value / PAGE_SIZE}
    ensures addr.Some? ==> fa.Holds(pm.words) && fa.F == old(fa.F) && fa.M == old(fa.M) && Elsewhere(fa, old(pm.words), pm.words)
  {
    hide TreeMaps, Elsewhere, Frames.Interval, ZeroFrame;
    ghost var free := fa.Free();
    addr := fa.AllocZeroed(pm);
    if addr.None? { return; }
    ghost var c := addr.value / PAGE_SIZE;
    assert free == fa.Free() + {c};
    PageTaken(fa, old(pm.words), pm.words, fa.F, fa.M, fa.Free(), c);
    NextFrame(fa.First(), fa.numAllocatedFrames - 1);
    fa.data := fa.data + {c};
  }

  lemma NextFrame(first: nat, count: nat)
    ensures Frames.Interval(first, count + 1) == Frames.Interval(first, count) + {first + count}
    ensures first + count !in Frames.Interval(first, count)
  {
    var more := Frames.Interval(first, count) + {first + count};
    forall f: nat ensures f in more <==> Frames.Within(f, first, count + 1) {
      assert f in more <==> Frames.Within(f, first, count) || f == first + count;
    }
  }

  lemma TwoOwn(start: nat, loads: seq<ProgramHeader>, a: nat, b: nat)
    ensures FinalMap(start, loads, [a, b]) == KernelMap(start, loads)[Page(a) := a / PAGE_SIZE][Page(b) := b / PAGE_SIZE]
  {
    hide KernelMap, Page;
    var own := [a, b];
    assert own[..1] == [a] && own[..1][..0] == [];
    assert OwnPages(KernelMap(start, loads), own[..1]) == KernelMap(start, loads)[Page(a) := a / PAGE_SIZE];
  }

  /** The part of `efi_main` that builds the kernel's table. `code` is the trampoline, which goes to
      the page `trampoline`; `bootInfo` is the page that the boot information is put into.
      `LoadedImage`, `StackInPlaceIff` and `OwnPlace` say what the result means. */
  method PrepareKernel(pm: PhysicalMemory, fa: FrameAlloc, elf: Elf, kernelStart: nat, code: seq<Byte>, trampoline: nat)
    returns (ok: bool, pageTable: nat, stackEnd: nat, bootInfo: nat)
    requires pm.Valid() && fa.startAddress % PAGE_SIZE == 0 && fa.numAllocatedFrames == 0 && fa.data == {}
    requires Slot(fa.First() + fa.maxFrames, 0) <= |pm.words| && elf.TableFits()
    requires forall k | 0 <= k < |LoadsOf(elf)| :: Sized(elf, LoadsOf(elf)[k])
    requires Room(fa, pm.words, kernelStart, TotalPages(LoadsOf(elf)) + STACK_PAGE_COUNT)
    requires Room(fa, pm.words, trampoline, 1) && |code| <= PAGE_SIZE
    requires Frames.IntervalsApart(kernelStart, TotalPages(LoadsOf(elf)) * PAGE_SIZE, trampoline, PAGE_SIZE)
    modifies pm, fa
    ensures pm.Valid()
    ensures !ok ==> fa.numAllocatedFrames >= fa.maxFrames || !AllAligned(LoadsOf(elf))
    ensures ok ==> pageTable == fa.F.kroot * PAGE_SIZE && stackEnd == EndVaddr(LoadsOf(elf)) + STACK_SIZE
    ensures ok ==> TreeMaps(pm.words, fa.F, fa.Free(), FinalMap(kernelStart, LoadsOf(elf), [trampoline, bootInfo]))
    ensures ok ==> ImageAt(pm.words, elf, kernelStart, LoadsOf(elf)) && CodeAt(pm.words, trampoline, code)
    ensures ok ==> bootInfo % PAGE_SIZE == 0 && fa.Owns(bootInfo / PAGE_SIZE) && bootInfo / PAGE_SIZE !in fa.F.nodes
    ensures ok ==> fa.numAllocatedFrames == 1 + |TableBlocks(fa.M.Keys)| + 1
    ensures ok ==> fa.M == FinalMap(kernelStart, LoadsOf(elf), [trampoline, bootInfo])
  {
    hide TreeMaps, TableBlocks, ImageAt, LoadsOf, Room, EndVaddr, TotalPages, Elsewhere, KernelMap, FinalMap, BytesStay, CodeAt, Page,
      Sized, ByteAt, Frames.Interval;
    ghost var loads, words := LoadsOf(elf), pm.words;
    pageTable, stackEnd, bootInfo := 0, 0, 0;
    AllSized(elf, loads);
    var total := GetPageCount(elf);
    if total.None? { return false, pageTable, stackEnd, bootInfo; }
    ok, pageTable, stackEnd := BuildTable(pm, fa, elf, kernelStart);
    if !ok { return; }
    ghost var built := pm.words;
    RoomStays(fa, words, built, trampoline, 1);
    ok := PrepareTrampoline(pm, fa, code, trampoline, pageTable);
    if !ok { return; }
    ghost var prepared := pm.words;
    var info := TakePage(pm, fa);
    if info.None? { return false, pageTable, stackEnd, bootInfo; }
    bootInfo := info.value;
    ghost var taken := pm.words;
    ok := MapPage4k(pm, fa, pageTable, bootInfo, bootInfo);
    if !ok { return; }
    ElsewhereTrans(fa, prepared, taken, pm.words);
    RoomBelow(fa, words, built, kernelStart, loads);
    ImageKept(fa, built, prepared, elf, kernelStart, loads, trampoline, PAGE_SIZE);
    RoomStays(fa, words, prepared, trampoline, 1);
    CodeKept(fa, prepared, pm.words, trampoline, code);
    RoomBelow(fa, words, prepared, kernelStart, loads);
    ElsewhereStays(fa, prepared, pm.words, kernelStart, 0);
    ImageKept(fa, prepared, pm.words, elf, kernelStart, loads, kernelStart, 0);
    TwoOwn(kernelStart, loads, trampoline, bootInfo);
    FramesAreBlocks(fa, pm.words);
  }

  lemma AllSized(elf: Elf, loads: seq<ProgramHeader>)
    requires forall k | 0 <= k < |loads| :: Sized(elf, loads[k])
    ensures NoOverflow(loads) && (AllAligned(loads) ==> AllLoadable(elf, loads))
  {}

  lemma RoomStays(fa: FrameAlloc, words: seq<Word>, words': seq<Word>, addr: nat, pages: nat)
    requires Room(fa, words, addr, pages) && |words'| == |words|
    ensures Room(fa, words', addr, pages)
  {}

  lemma CodeKept(fa: FrameAlloc, words: seq<Word>, words': seq<Word>, addr: nat, code: seq<Byte>)
    requires CodeAt(words, addr, code) && Room(fa, words, addr, 1) && |code| <= PAGE_SIZE && Elsewhere(fa, words, words')
    ensures CodeAt(words', addr, code)
  {
    hide ByteAt, Elsewhere;
    forall i: nat | i < |code| ensures ByteAt(words', addr + i) == code[i] {
      OutsideFrames(fa, words, addr, 1, addr + i);
      ElsewhereBytes(fa, words, words', addr + i);
    }
  }

  lemma BelowLimit(pm: PhysicalMemory, frame: nat)
    requires pm.Valid() && Slot(frame, 0) <= |pm.words|
    ensures frame <= FRAME_LIMIT
  {}

  lemma StackFits(fa: FrameAlloc, words: seq<Word>, pm: PhysicalMemory, start: nat, loads: seq<ProgramHeader>)
    requires Room(fa, words, start, TotalPages(loads) + STACK_PAGE_COUNT) && pm.Valid() && |pm.words| == |words|
    ensures var at := SegmentStart(start, loads, |loads|); at % PAGE_SIZE == 0 && at + STACK_SIZE <= FRAME_LIMIT * PAGE_SIZE
  {
    assert loads[..|loads|] == loads;
    BelowLimit(pm, start / PAGE_SIZE + (TotalPages(loads) + STACK_PAGE_COUNT));
  }
}
