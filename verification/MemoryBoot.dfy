/** How the memory manager comes up (kernel/src/mm/mod.rs:230-351): which frames are free, and
    what the reference table maps once the kernel text and the direct map are in it. */
module MemoryBoots {
  import opened Wrappers
  import opened Entries
  import opened Walks
  import opened Forests
  import opened Paths
  import opened PhysMem
  import opened BootMap
  import opened FrameAlloc
  import opened PageTables
  import opened Spaces
  import opened MemoryModel

  const KERNEL_TEXT_START: nat := 0xffff_ffff_8000_0000
  const KERNEL_TEXT_ROOM: nat := 0x8000_0000
  const TEXT_PAGE: nat := 0xf_fff8_0000
  const DIRECT_PAGE: nat := 0x8_8800_0000
  const BLOCK_SIZE: nat := 0x20_0000
  /** So many blocks fit between the start of the direct map and the kernel text. */
  const DIRECT_BLOCKS: nat := 0x3bb_fc00
  /** So many reach from the start of the direct map to the start of the vmalloc window. */
  const WINDOW_BLOCKS: nat := 0x100_0000

  datatype BootParameters = BootParameters(memoryMap: seq<MapEntry>, kernelStart: nat, kernelEnd: nat) {
    /** What the loader hands over: a merged memory map and whole pages for the kernel. */
    ghost predicate Valid() {
      && Separated(memoryMap) && UsableEntries(memoryMap)
      && kernelStart % PAGE_SIZE == 0 && kernelEnd % PAGE_SIZE == 0
      && kernelStart < kernelEnd <= kernelStart + KERNEL_TEXT_ROOM && kernelEnd <= FRAME_LIMIT * PAGE_SIZE
    }

    function KernelFrame(): (f: nat)
      ensures kernelStart % PAGE_SIZE == 0 ==> f * PAGE_SIZE == kernelStart
    {
      kernelStart / PAGE_SIZE
    }

    function KernelPages(): (n: nat)
      requires kernelStart <= kernelEnd
      ensures kernelStart % PAGE_SIZE == 0 && kernelEnd % PAGE_SIZE == 0 ==> kernelStart + n * PAGE_SIZE == kernelEnd
    {
      (kernelEnd - kernelStart) / PAGE_SIZE
    }
  }

  // Free frames.

  ghost predicate RunLocked(es: seq<MapEntry>, first: nat, count: nat, f: nat) {
    RunAvailable(es, first, count) && Within(f, first, count)
  }

  lemma RunHasRegion(fa: BitmapFrameAllocator, es: seq<MapEntry>, addr: nat, count: nat)
    requires fa.Valid() && Separated(es) && UsableEntries(es) && addr % PAGE_SIZE == 0 && count > 0
    requires fa.RegionsAre(Availables(es)) && RunAvailable(es, addr / PAGE_SIZE, count)
    ensures exists k :: 0 <= k < |fa.regions| && fa.regions[k].start <= addr &&
                        addr + count * PAGE_SIZE - 1 <= fa.regions[k].EndAddr()
  {
    var i := RunInOneEntry(es, addr / PAGE_SIZE, count);
    AvailablesAre(es, es[i]);
    var k :| 0 <= k < |fa.regions| && Availables(es)[k] == es[i];
    assert fa.regions[k].Valid();
  }

  lemma RegionHoldsRun(fa: BitmapFrameAllocator, es: seq<MapEntry>, k: nat, addr: nat, count: nat)
    requires fa.Valid() && fa.RegionsAre(Availables(es)) && k < |fa.regions| && addr % PAGE_SIZE == 0 && count > 0
    requires fa.regions[k].start <= addr && addr + count * PAGE_SIZE - 1 <= fa.regions[k].EndAddr()
    ensures RunAvailable(es, addr / PAGE_SIZE, count)
  {
    assert fa.regions[k].Valid();
    forall f: nat | Within(f, addr / PAGE_SIZE, count) ensures AvailableFrame(es, f) {
      AvailableIn(es, k, f);
    }
  }

  lemma AvailableIn(es: seq<MapEntry>, k: nat, f: nat)
    requires k < |Availables(es)| && FromPaddr(Availables(es)[k].addr) <= f
    requires f < FromPaddr(Availables(es)[k].addr) + Availables(es)[k].length / PAGE_SIZE
    ensures AvailableFrame(es, f)
  {
    AvailablesAre(es, Availables(es)[k]);
  }

  /** `lock_region` on whole pages. It takes effect exactly when all of the frames belong to
      available memory, because merged entries do not touch. */
  method LockRun(fa: BitmapFrameAllocator, ghost es: seq<MapEntry>, addr: nat, length: nat)
    requires fa.Valid() && Separated(es) && UsableEntries(es) && fa.RegionsAre(Availables(es))
    requires addr % PAGE_SIZE == 0 && length % PAGE_SIZE == 0 && length > 0
    modifies fa`free, fa.Repr
    ensures fa.Valid() && fa.regions == old(fa.regions) && fa.Repr == old(fa.Repr)
    ensures forall f: nat ::
      f in fa.free <==> f in old(fa.free) && !RunLocked(es, addr / PAGE_SIZE, length / PAGE_SIZE, f)
  {
    var ok := fa.LockRegion(addr, length);
    ghost var count := length / PAGE_SIZE;
    if ok {
      var k :| 0 <= k < |fa.regions| && fa.regions[k].start <= addr && addr + length - 1 <= fa.regions[k].EndAddr();
      RegionHoldsRun(fa, es, k, addr, count);
    } else if RunAvailable(es, addr / PAGE_SIZE, count) {
      RunHasRegion(fa, es, addr, count);
    }
  }

  /** The frame holds bytes of the kernel. */
  ghost predicate KernelHolds(boot: BootParameters, f: nat)
    requires boot.Valid()
  {
    boot.kernelStart <= f * PAGE_SIZE < boot.kernelEnd
  }

  lemma KernelRun(boot: BootParameters)
    requires boot.Valid()
    ensures forall f: nat :: KernelHolds(boot, f) <==> Within(f, boot.KernelFrame(), boot.KernelPages())
  {}

  /** The frames that `create_frame_allocator` takes out: the first four and the kernel's, each
      run only if all of it is available memory. */
  ghost predicate Locked(boot: BootParameters, f: nat)
    requires boot.Valid()
  {
    RunLocked(boot.memoryMap, 0, 4, f) || RunLocked(boot.memoryMap, boot.KernelFrame(), boot.KernelPages(), f)
  }

  /** The frames that are free once the allocator is set up. */
  ghost predicate FreeAtBoot(boot: BootParameters, f: nat)
    requires boot.Valid()
  {
    AvailableFrame(boot.memoryMap, f) && !Locked(boot, f)
  }

  /** Ignoring what `lock_region` returns keeps the kernel's frames from the allocator if and only
      if all of them are available memory, or each one is none or among four locked first frames. */
  lemma KernelIsKeptIff(boot: BootParameters)
    requires boot.Valid()
    ensures (forall f: nat | KernelHolds(boot, f) :: !FreeAtBoot(boot, f)) <==>
            || RunAvailable(boot.memoryMap, boot.KernelFrame(), boot.KernelPages())
            || (forall f: nat | KernelHolds(boot, f) && AvailableFrame(boot.memoryMap, f) ::
                  f < 4 && RunAvailable(boot.memoryMap, 0, 4))
  {
    hide BootParameters.Valid, AvailableFrame;
    KernelRun(boot);
  }

  /** It fails for a kernel of two pages of which the map calls only the first available. */
  lemma KernelLostExample()
    ensures var boot := BootParameters([MapEntry(0x10_0000, 0x1000, Available)], 0x10_0000, 0x10_2000);
      boot.Valid() && KernelHolds(boot, 0x100) && FreeAtBoot(boot, 0x100)
  {
    var boot := BootParameters([MapEntry(0x10_0000, 0x1000, Available)], 0x10_0000, 0x10_2000);
    assert EntryFrame(boot.memoryMap[0], 0x100);
    assert Within(0x101, boot.KernelFrame(), boot.KernelPages()) && !AvailableFrame(boot.memoryMap, 0x101);
  }

  /** `create_frame_allocator`. The results of `lock_region` are ignored. */
  method CreateFrameAllocator(boot: BootParameters) returns (fa: BitmapFrameAllocator)
    requires boot.Valid()
    ensures fresh(fa) && fresh(fa.Repr) && fa.Valid()
    ensures forall f: nat :: f in fa.free <==> FreeAtBoot(boot, f)
    ensures fa.RegionsAre(Availables(boot.memoryMap))
  {
    fa := new BitmapFrameAllocator();
    fa.Init(boot.memoryMap);
    LockRun(fa, boot.memoryMap, 0, 0x4000);
    LockRun(fa, boot.memoryMap, boot.kernelStart, boot.kernelEnd - boot.kernelStart);
  }

  /** `f` is the frame that `alloc_frame` hands out first: the lowest free one of the first
      available entry that has one. */
  ghost predicate FirstFree(boot: BootParameters, f: nat)
    requires boot.Valid()
  {
    exists k :: 0 <= k < |Availables(boot.memoryMap)| && FirstIn(boot, k, f)
  }

  ghost predicate FirstIn(boot: BootParameters, k: nat, f: nat)
    requires boot.Valid() && k < |Availables(boot.memoryMap)|
  {
    var av := Availables(boot.memoryMap);
    && EntryFrame(av[k], f) && FreeAtBoot(boot, f)
    && (forall j, g: nat | 0 <= j < k && EntryFrame(av[j], g) :: !FreeAtBoot(boot, g))
    && (forall g: nat | EntryFrame(av[k], g) && FreeAtBoot(boot, g) :: f <= g)
  }

  lemma RegionOwns(fa: BitmapFrameAllocator, es: seq<MapEntry>, k: nat)
    requires fa.Valid() && fa.RegionsAre(Availables(es)) && k < |fa.regions|
    ensures forall f: nat :: fa.regions[k].Owns(f) <==> EntryFrame(Availables(es)[k], f)
  {
    AvailablesAre(es, Availables(es)[k]);
  }

  lemma FirstIsFirstFree(fa: BitmapFrameAllocator, boot: BootParameters, f: nat, free: set<nat>)
    requires boot.Valid() && fa.Valid() && fa.RegionsAre(Availables(boot.memoryMap))
    requires f in free && fa.ComesFirst(f, free) && forall g: nat :: g in free <==> FreeAtBoot(boot, g)
    ensures FirstFree(boot, f)
  {
    hide FreeAtBoot;
    var av := Availables(boot.memoryMap);
    var k :| 0 <= k < |fa.regions| && fa.regions[k].Owns(f) && fa.NoneBefore(k, f, free);
    forall j | 0 <= j <= k ensures forall g: nat :: fa.regions[j].Owns(g) <==> EntryFrame(av[j], g) {
      RegionOwns(fa, boot.memoryMap, j);
    }
    assert FirstIn(boot, k, f);
  }

  /** All memory that the map calls available is there and can be named in an entry. */
  ghost predicate Installed(es: seq<MapEntry>, words: nat) {
    forall f: nat | AvailableFrame(es, f) :: f < FRAME_LIMIT && Slot(f, SLOTS) <= words
  }

  /** The frames left when the first one becomes the reference root fit the tree made of it. */
  lemma RootFits(boot: BootParameters, mem: seq<Word>, free: set<nat>, c: nat)
    requires boot.Valid() && Installed(boot.memoryMap, |mem|) && c !in free
    requires forall f | f in free :: FreeAtBoot(boot, f)
    ensures FramesFit(mem, FirstForest(c, true), free)
  {}

  // The reference table.

  /** What the reference table maps after `text` pages of the kernel and `blocks` blocks of the
      direct map; `first` is the kernel's first frame. */
  function BootWalk(first: nat, text: nat, blocks: nat, n: nat): Option<Mapping> {
    if TEXT_PAGE <= n < TEXT_PAGE + text then Some(Mapping(first + (n - TEXT_PAGE), 1, true, true, false))
    else if DIRECT_PAGE <= n < DIRECT_PAGE + blocks * 512 then Some(Mapping(n - DIRECT_PAGE, 2, true, true, false))
    else None
  }

  ghost predicate WalksAs(mem: seq<Word>, root: nat, first: nat, text: nat, blocks: nat) {
    forall n: nat | n < PAGES :: WalkPage(mem, root, n) == BootWalk(first, text, blocks, n)
  }

  /** Page `m` is mapped, by a leaf at or below the level. */
  ghost predicate MappedBelow(text: nat, blocks: nat, level: nat, m: nat) {
    || (TEXT_PAGE <= m < TEXT_PAGE + text && 1 <= level)
    || (DIRECT_PAGE <= m < DIRECT_PAGE + blocks * 512 && 2 <= level)
  }

  /** A table of the level is needed for a mapped page of the block. */
  ghost predicate Needed(text: nat, blocks: nat, level: nat, prefix: nat)
    requires 1 <= level <= 4
  {
    exists m: nat :: m < PAGES && MappedBelow(text, blocks, level, m) && Block(level + 1, m) == prefix
  }

  /** No table is there in vain. */
  ghost predicate NoneInVain(F: Forest, text: nat, blocks: nat) {
    forall g | g in F.nodes && F.nodes[g].level < 4 ::
      1 <= F.nodes[g].level && Needed(text, blocks, F.nodes[g].level, F.nodes[g].prefix)
  }

  ghost predicate Booted(mem: seq<Word>, F: Forest, free: set<nat>, pool: set<nat>, first: nat, text: nat, blocks: nat) {
    && Valid(mem, F) && F.user && KernelOnly(mem, F) && OneRoot(F) && FramesFit(mem, F, free)
    && pool == free + F.nodes.Keys && NoneInVain(F, text, blocks)
    && text <= KERNEL_TEXT_ROOM / PAGE_SIZE && blocks <= DIRECT_BLOCKS
    && WalksAs(mem, F.kroot, first, text, blocks)
  }

  lemma StartBoot(mem: seq<Word>, c: nat, free: set<nat>, first: nat)
    requires NothingPresent(mem, c) && c < FRAME_LIMIT && FramesFit(mem, FirstForest(c, true), free)
    ensures Booted(mem, FirstForest(c, true), free, free + {c}, first, 0, 0)
  {
    hide WalkFrom;
    EmptyRoot(mem, c, true);
  }

  lemma OnlyHighIndex(mem: seq<Word>, mem': seq<Word>, F: Forest, F': Forest, n: nat)
    requires KernelOnly(mem, F) && IsRoot(F, F.kroot) && F'.kroot == F.kroot && |mem'| == |mem|
    requires TopKept(mem, mem', F, F.kroot, n) && KernelHalf(n)
    ensures KernelOnly(mem', F')
  {}

  /** The effect of one call on the bookkeeping, whatever it maps. */
  lemma BootTables(mem: seq<Word>, F: Forest, free: set<nat>, mem': seq<Word>, F': Forest, free': set<nat>,
                   pool: set<nat>, n: nat, level: nat)
    requires KernelOnly(mem, F) && IsRoot(F, F.kroot) && OneRoot(F) && pool == free + F.nodes.Keys
    requires KernelHalf(n)
    requires Maintains(mem, F, free, mem', F', free', F.kroot, n, level)
    ensures KernelOnly(mem', F') && OneRoot(F') && pool == free' + F'.nodes.Keys
    ensures Valid(mem', F') && F'.kroot == F.kroot && F'.user == F.user && FramesFit(mem', F', free')
    ensures Extends(F, F') && NewTablesServe(F, F', n, level)
  {
    hide WalkFrom, Valid;
    OnlyHighIndex(mem, mem', F, F', n);
    assert forall r | IsRoot(F', r) :: r in F.nodes && IsRoot(F, r);
    assert free' + (free - free') == free;
  }

  lemma NeededStays(text: nat, blocks: nat, text': nat, blocks': nat, level: nat, prefix: nat)
    requires 1 <= level <= 4 && Needed(text, blocks, level, prefix) && text <= text' && blocks <= blocks'
    ensures Needed(text', blocks', level, prefix)
  {
    var m: nat :| m < PAGES && MappedBelow(text, blocks, level, m) && Block(level + 1, m) == prefix;
    assert MappedBelow(text', blocks', level, m);
  }

  /** The new tables serve page `n`, which is mapped now. */
  lemma NoneInVainStays(F: Forest, F': Forest, n: nat, level: nat, text: nat, blocks: nat, text': nat, blocks': nat)
    requires NoneInVain(F, text, blocks) && Extends(F, F') && NewTablesServe(F, F', n, level) && n < PAGES && 1 <= level
    requires text <= text' && blocks <= blocks' && MappedBelow(text', blocks', level, n)
    ensures NoneInVain(F', text', blocks')
  {
    hide Needed, Block;
    forall g | g in F'.nodes && F'.nodes[g].level < 4
      ensures 1 <= F'.nodes[g].level && Needed(text', blocks', F'.nodes[g].level, F'.nodes[g].prefix)
    {
      if g in F.nodes {
        NeededStays(text, blocks, text', blocks', F.nodes[g].level, F.nodes[g].prefix);
      } else {
        NeededBy(text', blocks', F'.nodes[g].level, n);
      }
    }
  }

  lemma NeededBy(text: nat, blocks: nat, level: nat, n: nat)
    requires 1 <= level <= 4 && n < PAGES && MappedBelow(text, blocks, level, n)
    ensures Needed(text, blocks, level, Block(level + 1, n))
  {}

  /** One block of the reference table: what it maps in the table's pages. */
  lemma BlockWalks(mem: seq<Word>, mem': seq<Word>, F: Forest, n: nat, level: nat, frame: nat, flags: EntryFlags)
    requires 1 <= level <= 3 && MapsBlock(mem, mem', F, F.kroot, n, level, frame, flags) && IsRoot(F, F.kroot)
    requires n < PAGES && WalkPage(mem, F.kroot, n) == None && F.user
    ensures forall m: nat | m < PAGES ::
      WalkPage(mem', F.kroot, m) == if Block(level, m) == Block(level, n) then Some(PageOf(frame, level, m, flags, true))
                                    else WalkPage(mem, F.kroot, m)
  {
    hide WalkFrom;
  }

  lemma BootPage(mem: seq<Word>, F: Forest, free: set<nat>, pool: set<nat>, first: nat, text: nat, blocks: nat)
    requires Booted(mem, F, free, pool, first, text, blocks)
    ensures IsRoot(F, F.kroot)
    ensures forall n: nat | n < PAGES && KernelHalf(n) :: Request(mem, F, F.kroot, n)
    ensures F.user && FramesFit(mem, F, free)
  {}

  lemma TextNumbers(text: nat)
    requires text < KERNEL_TEXT_ROOM / PAGE_SIZE
    ensures var n := TEXT_PAGE + text;
      n < PAGES && KernelHalf(n) && Page(KERNEL_TEXT_START + text * PAGE_SIZE) == n
  {
    assert (KERNEL_TEXT_START + text * PAGE_SIZE) / PAGE_SIZE == 0xf_ffff_fff8_0000 + text;
  }

  lemma TextStep(mem: seq<Word>, F: Forest, free: set<nat>, mem': seq<Word>, F': Forest, free': set<nat>,
                 pool: set<nat>, first: nat, text: nat, flags: EntryFlags)
    requires Booted(mem, F, free, pool, first, text, 0) && text < KERNEL_TEXT_ROOM / PAGE_SIZE
    requires Maintains(mem, F, free, mem', F', free', F.kroot, TEXT_PAGE + text, 1)
    requires MapsBlock(mem, mem', F, F.kroot, TEXT_PAGE + text, 1, first + text, flags)
    requires flags.write && flags.user && !flags.cacheDisable
    ensures Booted(mem', F', free', pool, first, text + 1, 0)
  {
    hide WalkFrom, MapsBlock, Maintains, Valid, KernelOnly, NoneInVain, NewTablesServe;
    TextNumbers(text);
    BootPage(mem, F, free, pool, first, text, 0);
    BootTables(mem, F, free, mem', F', free', pool, TEXT_PAGE + text, 1);
    NoneInVainStays(F, F', TEXT_PAGE + text, 1, text, 0, text + 1, 0);
    BlockWalks(mem, mem', F, TEXT_PAGE + text, 1, first + text, flags);
  }

  lemma DirectNumbers(block: nat)
    requires block < DIRECT_BLOCKS
    ensures var n := DIRECT_PAGE + block * 512;
      n < TEXT_PAGE && n < PAGES && KernelHalf(n) && Page(DirectMap(block * BLOCK_SIZE)) == n
  {
    assert DirectMap(block * BLOCK_SIZE) / PAGE_SIZE == 0xf_fff8_8800_0000 + block * 512;
  }

  // Which tables there are.

  lemma {:induction false} VisitsLong(mem: seq<Word>, f: nat, level: nat, n: nat, g: nat, glevel: nat)
    requires 1 <= glevel <= level <= 4 && Visits(mem, f, level, n, g, glevel)
    ensures |PathFrom(mem, f, level, n)| > level - glevel
    decreases level
  {
    if level > glevel { VisitsLong(mem, FrameOf(mem[Slot(f, IndexAt(level, n))]), level - 1, n, g, glevel); }
  }

  lemma TableOn(mem: seq<Word>, F: Forest, n: nat, l: nat) returns (g: nat)
    requires Valid(mem, F) && n < PAGES && 1 <= l <= 3 && |PathFrom(mem, F.kroot, 4, n)| > 4 - l
    ensures g in F.nodes && F.nodes[g].level == l && F.nodes[g].prefix == Block(l + 1, n) && FrameOk(mem, F, g)
  {
    PathIsChain(mem, F, F.kroot, n);
    var p := PathFrom(mem, F.kroot, 4, n);
    assert Link(mem, F, F.kroot, n, p, 4 - l);
    g := p[4 - l];
    assert FrameOk(mem, F, g);
  }

  /** The walk of a mapped page goes down to its leaf. */
  lemma LeafPath(mem: seq<Word>, F: Forest, m: nat)
    requires Valid(mem, F) && m < PAGES && WalkPage(mem, F.kroot, m).Some?
    ensures |PathFrom(mem, F.kroot, 4, m)| == 5 - WalkPage(mem, F.kroot, m).value.level
  {
    hide Valid, WalkFrom, PathFrom;
    ValidGives(mem, F);
    PathIsChain(mem, F, F.kroot, m);
    ChainLeafLevel(mem, F, F.kroot, m, PathFrom(mem, F.kroot, 4, m));
    RootServes(mem, F, F.kroot, m);
    LeafHasLevel(mem, F.kroot, 4, m);
  }

  lemma {:induction false} LeafHasLevel(mem: seq<Word>, f: nat, level: nat, n: nat)
    requires 1 <= level <= 4 && WalkFrom(mem, f, level, n).Some?
    ensures 1 <= WalkFrom(mem, f, level, n).value.level <= level
    decreases level
  {
    var s := Slot(f, IndexAt(level, n));
    if !IsLeaf(mem[s], level) { LeafHasLevel(mem, FrameOf(mem[s]), level - 1, n); }
  }

  /** A page's walk passes a table of the level exactly when some mapped page needs it. */
  lemma PathIffNeeded(mem: seq<Word>, F: Forest, free: set<nat>, pool: set<nat>, first: nat, text: nat, blocks: nat, n: nat, l: nat)
    requires Booted(mem, F, free, pool, first, text, blocks) && n < PAGES && 1 <= l <= 3
    ensures |PathFrom(mem, F.kroot, 4, n)| > 4 - l <==> Needed(text, blocks, l, Block(l + 1, n))
  {
    hide WalkFrom, Valid, PathFrom, Block, FrameOk;
    if |PathFrom(mem, F.kroot, 4, n)| > 4 - l {
      var g := TableOn(mem, F, n, l);
    } else if Needed(text, blocks, l, Block(l + 1, n)) {
      var m: nat :| m < PAGES && MappedBelow(text, blocks, l, m) && Block(l + 1, m) == Block(l + 1, n);
      assert WalkPage(mem, F.kroot, m) == BootWalk(first, text, blocks, m);
      LeafPath(mem, F, m);
      var g := TableOn(mem, F, m, l);
      AllVisited(mem, F, g, n);
      VisitsLong(mem, F.kroot, 4, n, g, l);
    }
  }

  /** Nothing is in the way of the next 2M block. */
  lemma BlockIsOpen(mem: seq<Word>, F: Forest, free: set<nat>, pool: set<nat>, first: nat, text: nat, block: nat)
    requires Booted(mem, F, free, pool, first, text, block) && block < DIRECT_BLOCKS
    ensures !BlockedBelow(mem, F.kroot, DIRECT_PAGE + block * 512, 2)
  {
    hide WalkFrom, Booted, PathFrom;
    DirectNumbers(block);
    PathIffNeeded(mem, F, free, pool, first, text, block, DIRECT_PAGE + block * 512, 1);
  }

  // How many.

  function Ceil(n: nat, d: nat): nat
    requires d > 0
  {
    (n + d - 1) / d
  }

  /** The tables that `text` pages of kernel text take: one for each 2M, 1G and 512G block. */
  function TextTables(text: nat): nat {
    Ceil(text, 0x200) + Ceil(text, 0x4_0000) + Ceil(text, 0x800_0000)
  }

  /** The tables that so many blocks of the direct map take: one for each 1G and 512G block, but
      from 119 TiB on they share the kernel text's 512G block. */
  function DirectTables(blocks: nat): nat {
    Ceil(blocks, 0x200) + Ceil(blocks, 0x4_0000) - (if blocks > 0x3b8_0000 then 1 else 0)
  }

  lemma TextNeeds(k: nat)
    requires k < KERNEL_TEXT_ROOM / PAGE_SIZE
    ensures Needed(k, 0, 1, Block(2, TEXT_PAGE + k)) <==> k % 0x200 != 0
    ensures Needed(k, 0, 2, Block(3, TEXT_PAGE + k)) <==> k % 0x4_0000 != 0
    ensures Needed(k, 0, 3, Block(4, TEXT_PAGE + k)) <==> k != 0
  {
    if k > 0 {
      var m := TEXT_PAGE + k - 1;
      assert m < PAGES && MappedBelow(k, 0, 1, m) && MappedBelow(k, 0, 2, m) && MappedBelow(k, 0, 3, m);
    }
  }

  lemma DirectNeedsLow(text: nat, b: nat)
    requires text <= KERNEL_TEXT_ROOM / PAGE_SIZE && b < DIRECT_BLOCKS
    ensures Needed(text, b, 2, Block(3, DIRECT_PAGE + b * 512)) <==> b % 0x200 != 0
  {
    if b % 0x200 != 0 { assert MappedBelow(text, b, 2, DIRECT_PAGE + b * 512 - 512); }
  }

  lemma DirectNeedsHigh(text: nat, b: nat)
    requires 0 < text <= KERNEL_TEXT_ROOM / PAGE_SIZE && b < DIRECT_BLOCKS
    ensures Needed(text, b, 3, Block(4, DIRECT_PAGE + b * 512)) <==> b % 0x4_0000 != 0 || b == 0x3b8_0000
  {
    if b == 0x3b8_0000 {
      assert MappedBelow(text, b, 3, TEXT_PAGE);
    } else if b % 0x4_0000 != 0 {
      assert MappedBelow(text, b, 3, DIRECT_PAGE + b * 512 - 512);
    }
  }

  lemma CeilGrows(n: nat, d: nat)
    requires d in {0x200, 0x4_0000, 0x800_0000}
    ensures Ceil(n + 1, d) == Ceil(n, d) + (if n % d == 0 then 1 else 0)
  {}

  /** The next page of kernel text lacks exactly the tables that the count grows by. */
  lemma TextMissing(mem: seq<Word>, F: Forest, free: set<nat>, pool: set<nat>, first: nat, k: nat)
    requires Booted(mem, F, free, pool, first, k, 0) && k < KERNEL_TEXT_ROOM / PAGE_SIZE
    ensures TextTables(k) + MissingTables(mem, F.kroot, TEXT_PAGE + k, 1) == TextTables(k + 1)
  {
    hide WalkFrom, Booted, PathFrom, Needed, Block, Ceil;
    TextNumbers(k);
    TextNeeds(k);
    PathIffNeeded(mem, F, free, pool, first, k, 0, TEXT_PAGE + k, 1);
    PathIffNeeded(mem, F, free, pool, first, k, 0, TEXT_PAGE + k, 2);
    PathIffNeeded(mem, F, free, pool, first, k, 0, TEXT_PAGE + k, 3);
    CeilGrows(k, 0x200);
    CeilGrows(k, 0x4_0000);
    CeilGrows(k, 0x800_0000);
  }

  lemma DirectMissing(mem: seq<Word>, F: Forest, free: set<nat>, pool: set<nat>, first: nat, text: nat, b: nat)
    requires Booted(mem, F, free, pool, first, text, b) && text > 0 && b < DIRECT_BLOCKS
    ensures DirectTables(b) + MissingTables(mem, F.kroot, DIRECT_PAGE + b * 512, 2) == DirectTables(b + 1)
  {
    hide WalkFrom, PathFrom, Needed, Block, Booted, Ceil;
    DirectNumbers(b);
    BootedBound(mem, F, free, pool, first, text, b);
    DirectNeedsLow(text, b);
    DirectNeedsHigh(text, b);
    PathIffNeeded(mem, F, free, pool, first, text, b, DIRECT_PAGE + b * 512, 2);
    PathIffNeeded(mem, F, free, pool, first, text, b, DIRECT_PAGE + b * 512, 3);
    CeilGrows(b, 0x200);
    CeilGrows(b, 0x4_0000);
  }

  lemma TablesGrow(a: nat, b: nat)
    requires a <= b
    ensures TextTables(a) <= TextTables(b) && DirectTables(a) <= DirectTables(b)
  {
    hide Ceil;
    CeilMonotone(a, b, 0x200);
    CeilMonotone(a, b, 0x4_0000);
    CeilMonotone(a, b, 0x800_0000);
    if a <= 0x3b8_0000 < b {
      CeilMonotone(a, 0x3b8_0000, 0x4_0000);
      CeilGrows(0x3b8_0000, 0x4_0000);
      CeilMonotone(0x3b8_0001, b, 0x4_0000);
    }
  }

  lemma CeilMonotone(a: nat, b: nat, d: nat)
    requires a <= b && d in {0x200, 0x4_0000, 0x800_0000}
    ensures Ceil(a, d) <= Ceil(b, d)
  {}

  lemma KernelHasPages(boot: BootParameters)
    requires boot.Valid()
    ensures boot.kernelStart <= boot.kernelEnd && boot.KernelPages() > 0
  {}

  lemma NoTables()
    ensures TextTables(0) == 0 && DirectTables(0) == 0
  {}

  /** The tables beside the root of a finished reference table. */
  function TablesAtBoot(boot: BootParameters, highest: nat): nat
    requires boot.kernelStart <= boot.kernelEnd
  {
    TextTables(boot.KernelPages()) + DirectTables(highest / BLOCK_SIZE + 1)
  }

  lemma BootedBound(mem: seq<Word>, F: Forest, free: set<nat>, pool: set<nat>, first: nat, text: nat, blocks: nat)
    requires Booted(mem, F, free, pool, first, text, blocks)
    ensures text <= KERNEL_TEXT_ROOM / PAGE_SIZE && blocks <= DIRECT_BLOCKS
  {}

  lemma InBlock(block: nat, m: nat)
    ensures Block(2, m) == Block(2, DIRECT_PAGE + block * 512) <==>
      DIRECT_PAGE + block * 512 <= m < DIRECT_PAGE + (block + 1) * 512
    ensures Block(2, m) == Block(2, DIRECT_PAGE + block * 512) ==> block * 512 + m % 512 == m - DIRECT_PAGE
  {}

  lemma DirectStep(mem: seq<Word>, F: Forest, free: set<nat>, mem': seq<Word>, F': Forest, free': set<nat>,
                   pool: set<nat>, first: nat, text: nat, block: nat, flags: EntryFlags)
    requires Booted(mem, F, free, pool, first, text, block) && block < DIRECT_BLOCKS
    requires Maintains(mem, F, free, mem', F', free', F.kroot, DIRECT_PAGE + block * 512, 2)
    requires MapsBlock(mem, mem', F, F.kroot, DIRECT_PAGE + block * 512, 2, block * 512, flags)
    requires flags.write && flags.user && !flags.cacheDisable
    ensures Booted(mem', F', free', pool, first, text, block + 1)
  {
    hide WalkFrom, MapsBlock, Maintains, Valid, KernelOnly, NoneInVain, NewTablesServe;
    var n := DIRECT_PAGE + block * 512;
    DirectNumbers(block);
    BootPage(mem, F, free, pool, first, text, block);
    BootTables(mem, F, free, mem', F', free', pool, n, 2);
    NoneInVainStays(F, F', n, 2, text, block, text, block + 1);
    BlockWalks(mem, mem', F, n, 2, block * 512, flags);
    forall m: nat | m < PAGES ensures WalkPage(mem', F.kroot, m) == BootWalk(first, text, block + 1, m) {
      InBlock(block, m);
    }
  }

  // What the finished table means.

  lemma TextTranslates(mem: seq<Word>, F: Forest, free: set<nat>, pool: set<nat>, first: nat, text: nat, blocks: nat, off: nat)
    requires Booted(mem, F, free, pool, first, text, blocks) && off < text * PAGE_SIZE
    ensures Translate(mem, F.kroot, KERNEL_TEXT_START + off) == Some(first * PAGE_SIZE + off)
  {
    hide WalkFrom, Valid;
    var k := off / PAGE_SIZE;
    TextNumbers(k);
    assert (KERNEL_TEXT_START + off) / PAGE_SIZE == (KERNEL_TEXT_START + k * PAGE_SIZE) / PAGE_SIZE;
  }

  /** The text window reads the loaded kernel, byte for byte. */
  lemma KernelTranslates(mem: seq<Word>, F: Forest, free: set<nat>, pool: set<nat>, boot: BootParameters, blocks: nat)
    requires boot.Valid() && Booted(mem, F, free, pool, boot.KernelFrame(), boot.KernelPages(), blocks)
    ensures forall a: nat | KERNEL_TEXT_START <= a < KERNEL_TEXT_START + (boot.kernelEnd - boot.kernelStart) ::
      Translate(mem, F.kroot, a) == Some(boot.kernelStart + (a - KERNEL_TEXT_START))
  {
    hide Booted, Translate;
    forall a: nat | KERNEL_TEXT_START <= a < KERNEL_TEXT_START + (boot.kernelEnd - boot.kernelStart)
      ensures Translate(mem, F.kroot, a) == Some(boot.kernelStart + (a - KERNEL_TEXT_START))
    {
      TextTranslates(mem, F, free, pool, boot.KernelFrame(), boot.KernelPages(), blocks, a - KERNEL_TEXT_START);
    }
  }

  /** Direct-map coherence: the address that `KernelPhysicalMemory` translates `p` to is mapped to `p`. */
  lemma DirectMapTranslates(mem: seq<Word>, F: Forest, free: set<nat>, pool: set<nat>, first: nat, text: nat, blocks: nat,
                            paddr: nat)
    requires Booted(mem, F, free, pool, first, text, blocks) && paddr < blocks * BLOCK_SIZE
    ensures Translate(mem, F.kroot, DirectMap(paddr)) == Some(paddr)
  {
    hide WalkFrom, Valid;
    var k, o := paddr / BLOCK_SIZE, paddr % BLOCK_SIZE / PAGE_SIZE;
    DirectNumbers(k);
    assert DirectMap(paddr) / PAGE_SIZE == 0xf_fff8_8800_0000 + k * 512 + o;
    assert Page(DirectMap(paddr)) == DIRECT_PAGE + k * 512 + o;
  }

  /** `address` is the highest end of an entry, or 0 when there is none. */
  ghost predicate HighestEnd(es: seq<MapEntry>, address: nat) {
    (forall e | e in es :: e.End() <= address) && (address == 0 || exists e :: e in es && e.End() == address)
  }

  /** The direct map reaches all memory of the memory map. */
  lemma MemoryTranslates(mem: seq<Word>, F: Forest, free: set<nat>, pool: set<nat>, es: seq<MapEntry>,
                         first: nat, text: nat, highest: nat)
    requires Booted(mem, F, free, pool, first, text, highest / BLOCK_SIZE + 1) && HighestEnd(es, highest)
    ensures forall e, p: nat | e in es && e.Covers(p) :: Translate(mem, F.kroot, PHYSICAL_MEMORY_START + p) == Some(p)
  {
    hide Booted, Translate;
    forall e, p: nat | e in es && e.Covers(p) ensures Translate(mem, F.kroot, PHYSICAL_MEMORY_START + p) == Some(p) {
      DirectMapTranslates(mem, F, free, pool, first, text, highest / BLOCK_SIZE + 1, p);
    }
  }

  ghost predicate WindowFree(mem: seq<Word>, root: nat) {
    forall n: nat | VM_FIRST <= n < VM_END :: WalkPage(mem, root, n) == None
  }

  /** The reference table maps nothing in the vmalloc window if and only if the direct map ends
      below it, that is for a highest address below 32 TiB. */
  lemma WindowIsFreeIff(mem: seq<Word>, F: Forest, free: set<nat>, pool: set<nat>, first: nat, text: nat, highest: nat)
    requires Booted(mem, F, free, pool, first, text, highest / BLOCK_SIZE + 1)
    ensures WindowFree(mem, F.kroot) <==> highest < WINDOW_BLOCKS * BLOCK_SIZE
  {
    hide WalkFrom, Valid;
    if highest >= WINDOW_BLOCKS * BLOCK_SIZE {
      assert highest / BLOCK_SIZE >= WINDOW_BLOCKS;
      assert BootWalk(first, text, highest / BLOCK_SIZE + 1, VM_FIRST).Some?;
      assert WalkPage(mem, F.kroot, VM_FIRST).Some?;
    }
  }

  lemma BootBase(mem: seq<Word>, F: Forest, free: set<nat>, pool: set<nat>, first: nat, text: nat, blocks: nat)
    requires Booted(mem, F, free, pool, first, text, blocks)
    ensures Base(State(mem, F, free, map[], VMALLOC_START, map[]), pool) && F.kroot in F.nodes
  {
    hide WalkFrom, Valid;
    var s := State(mem, F, free, map[], VMALLOC_START, map[]);
    ValidGives(mem, F);
    forall r, n: nat | IsRoot(F, r) && n < PAGES && !KernelHalf(n) ensures UserPageOk(s, r, n) {
      UserNotBooted(first, text, blocks, n);
    }
  }

  lemma NoRegions(s: State)
    requires s.next == VMALLOC_START && s.regions == map[]
    ensures Regions(s) <==> WindowFree(s.mem, s.F.kroot)
  {
    hide WalkFrom;
    assert VmPage(VMALLOC_START) == VM_FIRST;
    if Regions(s) {
      forall n: nat | VM_FIRST <= n < VM_END ensures WalkPage(s.mem, s.F.kroot, n) == None {
        assert Walk(s, s.F.kroot, n) == None;
      }
    }
  }

  /** The manager's invariant holds when it is up, if and only if the direct map leaves the window alone. */
  lemma BootIsInvIff(mem: seq<Word>, F: Forest, free: set<nat>, pool: set<nat>, first: nat, text: nat, highest: nat)
    requires Booted(mem, F, free, pool, first, text, highest / BLOCK_SIZE + 1)
    ensures Inv(State(mem, F, free, map[], VMALLOC_START, map[]), pool) <==> highest < WINDOW_BLOCKS * BLOCK_SIZE
  {
    hide WalkFrom, Booted, Base, Regions, WindowFree;
    BootBase(mem, F, free, pool, first, text, highest / BLOCK_SIZE + 1);
    NoRegions(State(mem, F, free, map[], VMALLOC_START, map[]));
    WindowIsFreeIff(mem, F, free, pool, first, text, highest);
  }

  lemma UserNotBooted(first: nat, text: nat, blocks: nat, n: nat)
    requires n < PAGES && !KernelHalf(n)
    ensures BootWalk(first, text, blocks, n) == None
  {}

  lemma {:induction false} SelfWalk(mem: seq<Word>, f: nat, i: nat, level: nat, n: nat)
    requires i < SLOTS && 1 <= level <= 4 && Slot(f, i) < |mem|
    requires forall l: nat | 1 <= l <= 4 :: IndexAt(l, n) == i
    requires var e := mem[Slot(f, i)]; Present(e) && !Large(e) && FrameOf(e) == f
    ensures WalkFrom(mem, f, level, n).Some?
    decreases level
  {
    assert IndexAt(level, n) == i;
    if level > 1 { SelfWalk(mem, f, i, level - 1, n); }
  }

  /** `PageTable::create` does not clear the frame it takes. If an old word in it happens to name
      the frame itself, the new root translates a page that nobody mapped, so that the frame
      holds no present entry is a real assumption. */
  lemma StaleRootTranslates(mem: seq<Word>, f: nat, i: nat, n: nat)
    requires i < SLOTS && Slot(f, i) < |mem|
    requires forall l: nat | 1 <= l <= 4 :: IndexAt(l, n) == i
    requires var e := mem[Slot(f, i)]; Present(e) && !Large(e) && FrameOf(e) == f
    ensures WalkPage(mem, f, n) != None
  {
    SelfWalk(mem, f, i, 4, n);
  }
}
