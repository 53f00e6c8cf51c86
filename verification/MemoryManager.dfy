/** The memory manager (kernel/src/mm/mod.rs): its methods are steps of the model, so that the
    theorems about runs apply to every sequence of calls. A returned `None` or `false` stands
    for the panic of an `expect`. */
module MemoryManagers {
  import opened Wrappers
  import opened Bits
  import opened Entries
  import opened Walks
  import opened Forests
  import opened Paths
  import opened PhysMem
  import opened FrameAlloc
  import opened PageTables
  import opened Spaces
  import opened MemoryModel
  import opened MemoryRuns
  import opened BootMap
  import opened MemoryBoots

  /** The table of one process; `regions` records what was mapped into it. */
  class MemorySpace {
    const pageTable: nat
    var regions: seq<(nat, nat, RegionFlags)>

    constructor (pageTable: nat)
      ensures this.pageTable == pageTable && regions == []
    {
      this.pageTable, regions := pageTable, [];
    }

    method AddRegion(vaddr: nat, size: nat, flags: RegionFlags)
      modifies this
      ensures regions == old(regions) + [(vaddr, size, flags)]
    {
      regions := regions + [(vaddr, size, flags)];
    }
  }

  /** The allocator, and the frame that `PageTable::create` takes from it for the reference root. */
  method TakeRoot(boot: BootParameters, ghost mem: seq<Word>)
    returns (fa: BitmapFrameAllocator, frame: Option<nat>, ghost free: set<nat>)
    requires boot.Valid() && Installed(boot.memoryMap, |mem|)
    ensures fresh(fa) && fresh(fa.Repr) && fa.Valid() && fa !in fa.Repr && forall f: nat :: f in free <==> FreeAtBoot(boot, f)
    ensures frame.None? ==> free == {}
    ensures frame.Some? ==> FirstFree(boot, frame.value) && frame.value < FRAME_LIMIT
    ensures frame.Some? ==> frame.value !in fa.free && free == fa.free + {frame.value}
    ensures frame.Some? ==> FramesFit(mem, FirstForest(frame.value, true), fa.free)
  {
    hide Locked, FirstFree;
    fa := CreateFrameAllocator(boot);
    free := fa.free;
    frame := fa.AllocFrame();
    if frame.Some? {
      FirstIsFirstFree(fa, boot, frame.value, free);
      RootFits(boot, mem, fa.free, frame.value);
    }
  }

  lemma PageExists(boot: BootParameters, pages: nat)
    requires boot.Valid() && pages * PAGE_SIZE < boot.kernelEnd - boot.kernelStart
    ensures pages < boot.KernelPages() && TextTables(pages + 1) <= TextTables(boot.KernelPages())
    ensures pages * PAGE_SIZE + PAGE_SIZE == (pages + 1) * PAGE_SIZE
  {
    TablesGrow(pages + 1, boot.KernelPages());
  }

  lemma AllPages(boot: BootParameters, pages: nat)
    requires boot.Valid() && boot.kernelEnd - boot.kernelStart <= pages * PAGE_SIZE && pages <= boot.KernelPages()
    ensures pages == boot.KernelPages()
  {}

  lemma BlockExists(blocks: nat, highest: nat)
    requires blocks * BLOCK_SIZE <= highest < DIRECT_BLOCKS * BLOCK_SIZE
    ensures blocks < DIRECT_BLOCKS && DirectTables(blocks + 1) <= DirectTables(highest / BLOCK_SIZE + 1)
  {
    TablesGrow(blocks + 1, highest / BLOCK_SIZE + 1);
  }

  lemma NextBlock(blocks: nat, highest: nat)
    requires blocks * BLOCK_SIZE <= highest
    ensures blocks * BLOCK_SIZE + BLOCK_SIZE == (blocks + 1) * BLOCK_SIZE <= highest + BLOCK_SIZE
  {}

  lemma AllBlocks(blocks: nat, highest: nat)
    requires highest < blocks * BLOCK_SIZE <= highest + BLOCK_SIZE
    ensures blocks == highest / BLOCK_SIZE + 1
  {}

  class MemoryManager {
    const boot: BootParameters
    const pm: PhysicalMemory
    const frameAllocator: BitmapFrameAllocator
    var referencePageTable: nat
    var kernelRegions: map<nat, VMRegion>
    var nextAddr: nat

    ghost var pool: set<nat>
    ghost var F: Forest
    ghost var use: map<nat, Use>

    constructor (boot: BootParameters, pm: PhysicalMemory, frameAllocator: BitmapFrameAllocator, referencePageTable: nat)
      ensures this.boot == boot && this.pm == pm && this.frameAllocator == frameAllocator
      ensures this.referencePageTable == referencePageTable && kernelRegions == map[] && nextAddr == VMALLOC_START
    {
      this.boot, this.pm, this.frameAllocator := boot, pm, frameAllocator;
      this.referencePageTable, kernelRegions, nextAddr := referencePageTable, map[], VMALLOC_START;
    }

    /** The state that the model speaks about. */
    ghost function Abstract(): State
      reads this, pm, frameAllocator
    {
      State(pm.words, F, frameAllocator.free, use, nextAddr, kernelRegions)
    }

    /** The state before the region in progress is recorded. */
    ghost function Ongoing(s0: State): State
      reads this, pm, frameAllocator
    {
      Abstract().(next := s0.next, regions := s0.regions)
    }

    ghost predicate Wired()
      reads this, pm, frameAllocator, frameAllocator.Repr
    {
      && pm.Valid() && frameAllocator.Valid()
      && {pm as object, frameAllocator, this} !! frameAllocator.Repr
      && pm as object != frameAllocator && pm as object != this && frameAllocator as object != this
      && referencePageTable == F.kroot * PAGE_SIZE
    }

    ghost predicate Valid()
      reads this, pm, frameAllocator, frameAllocator.Repr
    {
      Wired() && Inv(Abstract(), pool)
    }

    ghost predicate Booting(text: nat, blocks: nat)
      reads this, pm, frameAllocator
    {
      Booted(pm.words, F, frameAllocator.free, pool, boot.KernelFrame(), text, blocks)
    }

    /** One page of the kernel text. */
    method MapTextPage(ghost k: nat, offset: nat) returns (ok: bool)
      requires Wired() && boot.Valid() && k < boot.KernelPages() && offset == k * PAGE_SIZE && Booting(k, 0)
      modifies this`F, pm, frameAllocator`free, frameAllocator.Repr
      ensures Wired() && frameAllocator.Repr == old(frameAllocator.Repr)
      ensures if ok then Booting(k + 1, 0) else frameAllocator.free == {}
      ensures ok ==> TextTables(k) + |old(frameAllocator.free)| == TextTables(k + 1) + |frameAllocator.free|
      ensures !ok ==> TextTables(k) + |old(frameAllocator.free)| < TextTables(k + 1)
    {
      hide WalkFrom, Request, Maintains, MapsBlock, FramesFit, Booted, Page, PathFrom, BlockedBelow, MissingTables,
           TextTables;
      ghost var first, words, before, free := boot.KernelFrame(), pm.words, F, frameAllocator.free;
      TextNumbers(k);
      BootPage(words, F, free, pool, first, k, 0);
      TextMissing(words, F, free, pool, first, k);
      FrameAddress(F.kroot);
      FrameAddress(first + k);
      ok, F := MapRaw(pm, frameAllocator, F, referencePageTable, KERNEL_TEXT_START + offset, boot.kernelStart + offset,
                      Page4K, RegionFlags(true, true, true, false));
      NeverBlocked(words, before.kroot, TEXT_PAGE + k);
      if ok {
        TextStep(words, before, free, pm.words, F, frameAllocator.free, pool, first, k,
                 PageFlags(RegionFlags(true, true, true, false)));
      }
      MaintainsRoot(words, before, free, pm.words, F, frameAllocator.free, before.kroot, TEXT_PAGE + k, 1);
    }

    /** One block of the direct map. */
    method MapDirectBlock(ghost text: nat, ghost k: nat, offset: nat) returns (ok: bool)
      requires Wired() && k < DIRECT_BLOCKS && offset == k * BLOCK_SIZE && text > 0 && Booting(text, k)
      modifies this`F, pm, frameAllocator`free, frameAllocator.Repr
      ensures Wired() && frameAllocator.Repr == old(frameAllocator.Repr)
      ensures if ok then Booting(text, k + 1) else frameAllocator.free == {}
      ensures ok ==> DirectTables(k) + |old(frameAllocator.free)| == DirectTables(k + 1) + |frameAllocator.free|
      ensures !ok ==> DirectTables(k) + |old(frameAllocator.free)| < DirectTables(k + 1)
    {
      hide WalkFrom, Request, Maintains, MapsBlock, FramesFit, Booted, Page, PathFrom, BlockedBelow, MissingTables,
           DirectTables;
      ghost var first, words, before, free := boot.KernelFrame(), pm.words, F, frameAllocator.free;
      DirectNumbers(k);
      BlockFrame(offset);
      BootPage(words, F, free, pool, first, text, k);
      BlockIsOpen(words, F, free, pool, first, text, k);
      DirectMissing(words, F, free, pool, first, text, k);
      FrameAddress(F.kroot);
      ok, F := MapRaw(pm, frameAllocator, F, referencePageTable, offset + PHYSICAL_MEMORY_START, offset,
                      Page2M, RegionFlags(true, true, false, false));
      if ok {
        DirectStep(words, before, free, pm.words, F, frameAllocator.free, pool, first, text, k,
                   PageFlags(RegionFlags(true, true, false, false)));
      }
      MaintainsRoot(words, before, free, pm.words, F, frameAllocator.free, before.kroot, DIRECT_PAGE + k * 512, 2);
    }

    method MapText() returns (ok: bool)
      requires Wired() && boot.Valid() && Booting(0, 0)
      modifies this`F, pm, frameAllocator`free, frameAllocator.Repr
      ensures Wired() && frameAllocator.Repr == old(frameAllocator.Repr)
      ensures if ok then Booting(boot.KernelPages(), 0) else frameAllocator.free == {}
      ensures if ok then |old(frameAllocator.free)| == |frameAllocator.free| + TextTables(boot.KernelPages())
              else |old(frameAllocator.free)| < TextTables(boot.KernelPages())
    {
      hide *;
      KernelHasPages(boot);
      NoTables();
      var kernelLength := boot.kernelEnd - boot.kernelStart;
      ghost var pages := 0;
      var offset := 0;
      while offset < kernelLength
        invariant Wired() && frameAllocator.Repr == old(frameAllocator.Repr)
        invariant pages <= boot.KernelPages() && offset == pages * PAGE_SIZE && Booting(pages, 0)
        invariant |old(frameAllocator.free)| == |frameAllocator.free| + TextTables(pages)
        decreases boot.KernelPages() - pages
      {
        PageExists(boot, pages);
        ok := MapTextPage(pages, offset);
        if !ok { return; }
        pages, offset := pages + 1, offset + PAGE_SIZE;
      }
      AllPages(boot, pages);
      return true;
    }

    method MapDirect(highestAddress: nat) returns (ok: bool)
      requires Wired() && highestAddress < DIRECT_BLOCKS * BLOCK_SIZE && boot.Valid() && Booting(boot.KernelPages(), 0)
      modifies this`F, pm, frameAllocator`free, frameAllocator.Repr
      ensures Wired() && frameAllocator.Repr == old(frameAllocator.Repr)
      ensures if ok then Booting(boot.KernelPages(), highestAddress / BLOCK_SIZE + 1) else frameAllocator.free == {}
      ensures if ok then |old(frameAllocator.free)| == |frameAllocator.free| + DirectTables(highestAddress / BLOCK_SIZE + 1)
              else |old(frameAllocator.free)| < DirectTables(highestAddress / BLOCK_SIZE + 1)
    {
      hide *;
      KernelHasPages(boot);
      NoTables();
      ghost var blocks := 0;
      var offset := 0;
      while offset <= highestAddress
        invariant Wired() && frameAllocator.Repr == old(frameAllocator.Repr)
        invariant offset == blocks * BLOCK_SIZE <= highestAddress + BLOCK_SIZE
        invariant Booting(boot.KernelPages(), blocks)
        invariant |old(frameAllocator.free)| == |frameAllocator.free| + DirectTables(blocks)
      {
        BlockExists(blocks, highestAddress);
        ok := MapDirectBlock(boot.KernelPages(), blocks, offset);
        if !ok { return; }
        NextBlock(blocks, highestAddress);
        blocks, offset := blocks + 1, offset + BLOCK_SIZE;
      }
      AllBlocks(blocks, highestAddress);
      return true;
    }

    /** The kernel text, then the direct map. */
    method MapAll(highestAddress: nat) returns (ok: bool)
      requires Wired() && highestAddress < DIRECT_BLOCKS * BLOCK_SIZE && boot.Valid() && Booting(0, 0)
      modifies this`F, pm, frameAllocator`free, frameAllocator.Repr
      ensures Wired() && frameAllocator.Repr == old(frameAllocator.Repr)
      ensures ok ==> Booting(boot.KernelPages(), highestAddress / BLOCK_SIZE + 1)
      ensures if ok then |old(frameAllocator.free)| == |frameAllocator.free| + TablesAtBoot(boot, highestAddress)
              else |old(frameAllocator.free)| < TablesAtBoot(boot, highestAddress)
    {
      hide Wired, Booting, TextTables, DirectTables;
      ok := MapText();
      if !ok { return; }
      ok := MapDirect(highestAddress);
    }

    /** The highest end of an entry of the memory map. */
    method HighestAddress() returns (address: nat)
      ensures HighestEnd(boot.memoryMap, address)
    {
      address := 0;
      for i := 0 to |boot.memoryMap|
        invariant HighestEnd(boot.memoryMap[..i], address)
      {
        var end := boot.memoryMap[i].addr + boot.memoryMap[i].length;
        assert boot.memoryMap[..i + 1] == boot.memoryMap[..i] + [boot.memoryMap[i]];
        HighestEndGrows(boot.memoryMap[..i], boot.memoryMap[i], address);
        if address < end { address := end; }
      }
      assert boot.memoryMap[..|boot.memoryMap|] == boot.memoryMap;
    }

    /** `initialize`, on the frame without a present entry that `new` took for the reference root. */
    method Initialize() returns (ok: bool, ghost highest: nat)
      requires pm.Valid() && frameAllocator.Valid() && {pm as object, frameAllocator, this} !! frameAllocator.Repr
      requires pm as object != frameAllocator && pm as object != this && frameAllocator as object != this
      requires boot.Valid() && kernelRegions == map[] && nextAddr == VMALLOC_START
      requires forall e | e in boot.memoryMap :: e.End() < DIRECT_BLOCKS * BLOCK_SIZE
      requires referencePageTable % PAGE_SIZE == 0 && referencePageTable / PAGE_SIZE < FRAME_LIMIT
      requires NothingPresent(pm.words, referencePageTable / PAGE_SIZE)
      requires FramesFit(pm.words, FirstForest(referencePageTable / PAGE_SIZE, true), frameAllocator.free)
      modifies this`F, this`pool, this`use, pm, frameAllocator`free, frameAllocator.Repr
      ensures HighestEnd(boot.memoryMap, highest)
      ensures ok <==> |old(frameAllocator.free)| >= TablesAtBoot(boot, highest)
      ensures ok ==> |old(frameAllocator.free)| == |frameAllocator.free| + TablesAtBoot(boot, highest)
      ensures ok ==> Wired() && use == map[] && Booting(boot.KernelPages(), highest / BLOCK_SIZE + 1)
      ensures ok ==> forall a: nat | KERNEL_TEXT_START <= a < KERNEL_TEXT_START + (boot.kernelEnd - boot.kernelStart) ::
        Translate(pm.words, F.kroot, a) == Some(boot.kernelStart + (a - KERNEL_TEXT_START))
      ensures ok ==> forall e, p: nat | e in boot.memoryMap && e.Covers(p) ::
        Translate(pm.words, F.kroot, PHYSICAL_MEMORY_START + p) == Some(p)
      ensures ok ==> (Valid() <==> highest < WINDOW_BLOCKS * BLOCK_SIZE)
      ensures ok ==> pool == old(frameAllocator.free) + {referencePageTable / PAGE_SIZE}
    {
      hide *;
      ghost var c := FrameOfTable(referencePageTable);
      F, use, pool := FirstForest(c, true), map[], frameAllocator.free + {c};
      TreeBegins(c);
      var highestAddress := HighestAddress();
      highest := highestAddress;
      HighestBelow(boot.memoryMap, highest);
      ok := MapAll(highestAddress);
      if ok { TreeIsUp(highest); }
    }

    lemma TreeBegins(c: nat)
      requires pm.Valid() && frameAllocator.Valid() && {pm as object, frameAllocator, this} !! frameAllocator.Repr
      requires pm as object != frameAllocator && pm as object != this && frameAllocator as object != this
      requires referencePageTable % PAGE_SIZE == 0 && c == referencePageTable / PAGE_SIZE < FRAME_LIMIT
      requires F == FirstForest(c, true)
      requires NothingPresent(pm.words, c) && FramesFit(pm.words, F, frameAllocator.free)
      requires pool == frameAllocator.free + {c}
      ensures Wired() && Booting(0, 0)
    {
      hide WalkFrom, Booted, NothingPresent, FramesFit;
      StartBoot(pm.words, c, frameAllocator.free, boot.KernelFrame());
    }

    lemma TreeIsUp(highest: nat)
      requires Wired() && boot.Valid() && Booting(boot.KernelPages(), highest / BLOCK_SIZE + 1)
      requires kernelRegions == map[] && nextAddr == VMALLOC_START && use == map[] && HighestEnd(boot.memoryMap, highest)
      ensures forall a: nat | KERNEL_TEXT_START <= a < KERNEL_TEXT_START + (boot.kernelEnd - boot.kernelStart) ::
        Translate(pm.words, F.kroot, a) == Some(boot.kernelStart + (a - KERNEL_TEXT_START))
      ensures forall e, p: nat | e in boot.memoryMap && e.Covers(p) ::
        Translate(pm.words, F.kroot, PHYSICAL_MEMORY_START + p) == Some(p)
      ensures Valid() <==> highest < WINDOW_BLOCKS * BLOCK_SIZE
    {
      hide Inv, Booted, Translate, HighestEnd, BootParameters.Valid, MapEntry.Covers;
      KernelTranslates(pm.words, F, frameAllocator.free, pool, boot, highest / BLOCK_SIZE + 1);
      MemoryTranslates(pm.words, F, frameAllocator.free, pool, boot.memoryMap, boot.KernelFrame(), boot.KernelPages(), highest);
      BootIsInvIff(pm.words, F, frameAllocator.free, pool, boot.KernelFrame(), boot.KernelPages(), highest);
    }

    /** `MemoryManager::new`: the manager is up, and its pool is what the allocator started with,
        unless that was too little for the tables. */
    static method New(boot: BootParameters, pm: PhysicalMemory)
      returns (manager: Option<MemoryManager>, ghost free: set<nat>, ghost highest: nat)
      requires boot.Valid() && pm.Valid() && Installed(boot.memoryMap, |pm.words|)
      requires forall e | e in boot.memoryMap :: e.End() < DIRECT_BLOCKS * BLOCK_SIZE
      requires forall f: nat | FirstFree(boot, f) :: NothingPresent(pm.words, f)
      modifies pm
      ensures (forall f: nat :: f in free <==> FreeAtBoot(boot, f)) && HighestEnd(boot.memoryMap, highest)
      ensures manager.Some? <==> |free| > TablesAtBoot(boot, highest)
      ensures manager.Some? ==>
        var m := manager.value;
        && fresh(m) && m.boot == boot && m.pm == pm && fresh(m.frameAllocator) && fresh(m.frameAllocator.Repr)
        && m.Wired() && m.Booting(boot.KernelPages(), highest / BLOCK_SIZE + 1) && m.pool == free && m.use == map[]
        && (m.Valid() <==> highest < WINDOW_BLOCKS * BLOCK_SIZE)
        && (forall a: nat | KERNEL_TEXT_START <= a < KERNEL_TEXT_START + (boot.kernelEnd - boot.kernelStart) ::
              Translate(pm.words, m.F.kroot, a) == Some(boot.kernelStart + (a - KERNEL_TEXT_START)))
        && (forall e, p: nat | e in boot.memoryMap && e.Covers(p) ::
              Translate(pm.words, m.F.kroot, PHYSICAL_MEMORY_START + p) == Some(p))
    {
      hide *;
      var fa, frame;
      fa, frame, free := TakeRoot(boot, pm.words);
      if frame.None? {
        highest := HighestExists(boot.memoryMap);
        return None, free, highest;
      }
      FrameAddress(frame.value);
      var result := new MemoryManager(boot, pm, fa, frame.value * PAGE_SIZE);
      var ok;
      ok, highest := result.Initialize();
      if !ok { return None, free, highest; }
      return Some(result), free, highest;
    }

    /** `page_table.map_raw` for one 4K page. */
    method MapPage(table: nat, ghost root: nat, vaddr: nat, frame: nat, flags: RegionFlags) returns (ok: bool)
      requires Wired() && table == root * PAGE_SIZE && Request(pm.words, F, root, Page(vaddr)) && F.user
      requires FramesFit(pm.words, F, frameAllocator.free) && frame < FRAME_LIMIT
      modifies this`F, pm, frameAllocator`free, frameAllocator.Repr
      ensures Wired() && frameAllocator.Repr == old(frameAllocator.Repr)
      ensures Abstract() == old(Abstract()).(mem := pm.words, F := F, free := frameAllocator.free)
      ensures ok ==> MapsPage(old(Abstract()), Abstract(), old(frameAllocator.free), root, Page(vaddr), frame, flags)
      ensures !ok ==> frameAllocator.free == {}
    {
      FrameAddress(frame);
      FrameAddress(root);
      hide WalkFrom, Request, Maintains, MapsBlock, FramesFit, PathFrom;
      ok, F := MapRaw(pm, frameAllocator, F, table, vaddr, frame * PAGE_SIZE, Page4K, flags);
      MaintainsRoot(old(pm.words), old(F), old(frameAllocator.free), pm.words, F, frameAllocator.free, root, Page(vaddr), 1);
    }

    /** The frame behind a page of a region: a given one, or a new one. */
    method TakeFrame(region: VMRegion, offset: nat) returns (frame: Option<nat>)
      requires Wired()
      modifies frameAllocator`free, frameAllocator.Repr
      ensures Wired() && frameAllocator.Repr == old(frameAllocator.Repr)
      ensures frame.None? ==> region.paddr.None? && frameAllocator.free == old(frameAllocator.free) == {}
      ensures frame.Some? && region.paddr.Some? ==>
        frame.value == FromPaddr(region.paddr.value) + offset && frameAllocator.free == old(frameAllocator.free)
      ensures frame.Some? && region.paddr.None? ==>
        frame.value in old(frameAllocator.free) && frameAllocator.free == old(frameAllocator.free) - {frame.value}
    {
      if region.paddr.Some? {
        return Some(FromPaddr(region.paddr.value) + offset);
      }
      frame := frameAllocator.AllocFrame();
    }

    /** One turn of the loop of `map_region`. */
    method MapKernelPage(ghost s0: State, region: VMRegion, offset: nat) returns (ok: bool)
      requires Wired() && Base(Ongoing(s0), pool) && Regions(s0) && NextRegion(s0, region) && IsRoot(s0.F, s0.F.kroot)
      requires KernelMapped(s0, Ongoing(s0), region, offset)
      requires offset < region.pageCount
      requires region.paddr.Some? ==> FromPaddr(region.paddr.value) + region.pageCount <= FRAME_LIMIT
      modifies this`F, this`use, pm, frameAllocator`free, frameAllocator.Repr
      ensures Wired() && frameAllocator.Repr == old(frameAllocator.Repr)
      ensures !ok ==> frameAllocator.free == {}
      ensures ok ==> Base(Ongoing(s0), pool) && KernelMapped(s0, Ongoing(s0), region, offset + 1)
    {
      hide WalkFrom, Request, Maintains, MapsBlock, FramesFit, Regions, KernelMapped, PathFrom, Base, Page;
      ghost var s1 := Ongoing(s0);
      ghost var n := Page(region.vaddr) + offset;
      BaseGives(s1, pool, n);
      KernelMappedRoot(s0, s1, region, offset);
      NextPageUnmapped(s0, s1, region, offset);
      var f := TakeFrame(region, offset);
      if f.None? { return false; }
      var frame := f.value;
      ok := MapPage(referencePageTable, F.kroot, region.vaddr + offset * PAGE_SIZE, frame, region.flags);
      if !ok { return; }
      if region.paddr.None? { use := use[frame := Use(Kernel, n)]; }
      KernelPageDone(s0, s1, Ongoing(s0), pool, region, offset, frame);
    }

    /** `map_region`: every page of the region, in order. */
    method MapRegion(ghost s0: State, region: VMRegion) returns (ok: bool)
      requires Wired() && Inv(s0, pool) && NextRegion(s0, region)
      requires Abstract() == s0.(next := nextAddr, regions := kernelRegions)
      requires region.paddr.Some? ==> FromPaddr(region.paddr.value) + region.pageCount <= FRAME_LIMIT
      modifies this`F, this`use, pm, frameAllocator`free, frameAllocator.Repr
      ensures Wired() && frameAllocator.Repr == old(frameAllocator.Repr)
      ensures !ok ==> frameAllocator.free == {}
      ensures ok ==> Base(Ongoing(s0), pool) && KernelMapped(s0, Ongoing(s0), region, region.pageCount)
    {
      StartRegion(s0, region);
      hide WalkFrom, Regions, KernelMapped, Base, Inv;
      InvGives(s0, pool);
      for offset := 0 to region.pageCount
        invariant Wired() && frameAllocator.Repr == old(frameAllocator.Repr)
        invariant Base(Ongoing(s0), pool) && KernelMapped(s0, Ongoing(s0), region, offset)
      {
        ok := MapKernelPage(s0, region, offset);
        if !ok { return; }
      }
      return true;
    }

    /** `allocate_kernel_vm` and `map_physical_to_kernel_vm` after their argument checks: the next
        addresses become a region, which is recorded and mapped. */
    method AddRegion(paddr: Option<nat>, size: nat, flags: RegionFlags) returns (vaddr: Option<nat>)
      requires Valid() && size > 0
      requires nextAddr + (size / PAGE_SIZE + 1) * PAGE_SIZE <= VMALLOC_END
      requires paddr.Some? ==> FromPaddr(paddr.value) + size / PAGE_SIZE + 1 <= FRAME_LIMIT
      modifies this`F, this`use, this`nextAddr, this`kernelRegions, pm, frameAllocator`free, frameAllocator.Repr
      ensures frameAllocator.Repr == old(frameAllocator.Repr)
      ensures vaddr.None? ==> frameAllocator.free == {}
      ensures vaddr.Some? ==> vaddr.value == old(nextAddr) && Valid()
      ensures vaddr.Some? ==> nextAddr == vaddr.value + (size / PAGE_SIZE + 1) * PAGE_SIZE
      ensures vaddr.Some? ==>
        Step(old(Abstract()), MapKernel(VMRegion(vaddr.value, paddr, size / PAGE_SIZE + 1, flags)), Abstract(), pool)
    {
      hide WalkFrom, Regions, KernelMapped, Base, Inv, Step;
      ghost var s0 := Abstract();
      var start := nextAddr;
      var pageCount := size / PAGE_SIZE + 1;
      nextAddr := nextAddr + pageCount * PAGE_SIZE;
      var region := VMRegion(start, paddr, pageCount, flags);
      kernelRegions := kernelRegions[start := region];
      var ok := MapRegion(s0, region);
      if !ok { return None; }
      RegionIsStep(s0, Ongoing(s0), Abstract(), region, pool);
      return Some(start);
    }

    method AllocateKernelVm(size: nat) returns (vaddr: Option<nat>)
      requires Valid() && size > 0
      requires nextAddr + (size / PAGE_SIZE + 1) * PAGE_SIZE <= VMALLOC_END
      modifies this`F, this`use, this`nextAddr, this`kernelRegions, pm, frameAllocator`free, frameAllocator.Repr
      ensures frameAllocator.Repr == old(frameAllocator.Repr)
      ensures vaddr.None? ==> frameAllocator.free == {}
      ensures vaddr.Some? ==> vaddr.value == old(nextAddr) && Valid()
      ensures vaddr.Some? ==> nextAddr == vaddr.value + (size / PAGE_SIZE + 1) * PAGE_SIZE
      ensures vaddr.Some? ==>
        Step(old(Abstract()), MapKernel(VMRegion(vaddr.value, None, size / PAGE_SIZE + 1, RegionFlags(true, true, false, false))),
             Abstract(), pool)
    {
      hide *;
      vaddr := AddRegion(None, size, RegionFlags(true, true, false, false));
    }

    method MapPhysicalToKernelVm(paddr: nat, size: nat, flags: RegionFlags) returns (vaddr: Option<nat>)
      requires Valid() && size > 0
      requires nextAddr + (size / PAGE_SIZE + 1) * PAGE_SIZE <= VMALLOC_END
      requires FromPaddr(paddr) + size / PAGE_SIZE + 1 <= FRAME_LIMIT
      modifies this`F, this`use, this`nextAddr, this`kernelRegions, pm, frameAllocator`free, frameAllocator.Repr
      ensures frameAllocator.Repr == old(frameAllocator.Repr)
      ensures vaddr.None? ==> frameAllocator.free == {}
      ensures vaddr.Some? ==> vaddr.value == old(nextAddr) && Valid()
      ensures vaddr.Some? ==> nextAddr == vaddr.value + (size / PAGE_SIZE + 1) * PAGE_SIZE
      ensures vaddr.Some? ==>
        Step(old(Abstract()), MapKernel(VMRegion(vaddr.value, Some(paddr), size / PAGE_SIZE + 1, flags)), Abstract(), pool)
    {
      hide *;
      vaddr := AddRegion(Some(paddr), size, flags);
    }

    /** One turn of the loop of `map_in_userspace`. */
    method MapUserPage(ghost s0: State, table: nat, ghost r: nat, vaddr: nat, page: nat, flags: RegionFlags) returns (ok: bool)
      requires Wired() && Base(Abstract(), pool) && UserMapped(s0, Abstract(), r, Page(vaddr), page, flags)
      requires IsRoot(F, r) && r != F.kroot && table == r * PAGE_SIZE && vaddr + page * PAGE_SIZE < USER_END
      modifies this`F, this`use, pm, frameAllocator`free, frameAllocator.Repr
      ensures Wired() && frameAllocator.Repr == old(frameAllocator.Repr)
      ensures !ok ==> frameAllocator.free == {}
      ensures ok ==> Base(Abstract(), pool) && UserMapped(s0, Abstract(), r, Page(vaddr), page + 1, flags)
      ensures ok ==> IsRoot(F, r) && r != F.kroot
    {
      hide WalkFrom, Request, MapsPage, FramesFit, UserMapped, Base, Page, KernelHalf, IsRoot, BitmapFrameAllocator.RegionsApart;
      ghost var s1, n := Abstract(), Page(vaddr) + page;
      UserPageNumber(vaddr, page);
      UserRequest(s1, pool, r, n);
      var f := frameAllocator.AllocFrame();
      if f.None? { return false; }
      var frame := f.value;
      ghost var taken := Abstract();
      ok := MapPage(table, r, vaddr + page * PAGE_SIZE, frame, flags);
      if !ok { return; }
      ghost var mapped := Abstract();
      use := use[frame := Use(Space(r), n)];
      SameMapping(taken, mapped, s1, Abstract(), s1.free - {frame}, r, n, frame, flags);
      UserPageDone(s0, s1, Abstract(), pool, r, Page(vaddr), page, frame, flags);
    }

    method MapInUserspace(space: MemorySpace, vaddr: nat, size: nat, flags: RegionFlags) returns (ok: bool)
      requires Valid() && space.pageTable % PAGE_SIZE == 0 && IsRoot(F, space.pageTable / PAGE_SIZE)
      requires space.pageTable / PAGE_SIZE != F.kroot && space !in frameAllocator.Repr
      requires vaddr + (size / PAGE_SIZE + 1) * PAGE_SIZE <= USER_END
      modifies this`F, this`use, pm, frameAllocator`free, frameAllocator.Repr, space
      ensures frameAllocator.Repr == old(frameAllocator.Repr)
      ensures !ok ==> frameAllocator.free == {}
      ensures ok ==> Valid() && space.regions == old(space.regions) + [(vaddr, size, flags)]
      ensures ok ==>
        Step(old(Abstract()), MapUser(space.pageTable / PAGE_SIZE, Page(vaddr), size / PAGE_SIZE + 1, flags), Abstract(), pool)
    {
      hide WalkFrom, UserMapped, Base, Inv, Step, Page;
      ghost var s0, r := Abstract(), space.pageTable / PAGE_SIZE;
      InvGives(s0, pool);
      StartUser(s0, r, Page(vaddr), flags);
      var pages := size / PAGE_SIZE + 1;
      for page := 0 to pages
        invariant Wired() && frameAllocator.Repr == old(frameAllocator.Repr)
        invariant Base(Abstract(), pool) && UserMapped(s0, Abstract(), r, Page(vaddr), page, flags)
        invariant IsRoot(F, r) && r != F.kroot && space.regions == old(space.regions)
      {
        ok := MapUserPage(s0, space.pageTable, r, vaddr, page, flags);
        if !ok { return; }
      }
      UserRange(vaddr, pages);
      UserIsStep(s0, Abstract(), r, Page(vaddr), pages, flags, pool);
      space.AddRegion(vaddr, size, flags);
      return true;
    }

    /** The loop of `create_page_table`. */
    method CopyTopLevel(table: nat, ghost c: nat)
      requires Wired() && c !in F.nodes && c < FRAME_LIMIT && Slot(c, SLOTS) <= |pm.words|
      requires Slot(F.kroot, SLOTS) <= |pm.words| && F.kroot != c && table == c * PAGE_SIZE
      modifies pm
      ensures pm.Valid() && Cloned(old(pm.words), pm.words, F, c)
    {
      ghost var before := pm.words;
      for i := 0 to SLOTS
        invariant pm.Valid() && |pm.words| == |before|
        invariant forall s | 0 <= s < |before| && s / SLOTS != c :: pm.words[s] == before[s]
        invariant forall j: nat | j < i :: pm.words[Slot(c, j)] == before[Slot(F.kroot, j)]
      {
        assert referencePageTable + i * 8 == SlotAddr(F.kroot, i) && table + i * 8 == SlotAddr(c, i);
        assert Slot(F.kroot, i) / SLOTS == F.kroot && Slot(c, i) / SLOTS == c;
        var entry := pm.Read(referencePageTable + i * 8);
        pm.Write(table + i * 8, entry);
      }
    }

    /** A frame for a new root, filled from the reference root. */
    method NewRoot() returns (frame: Option<nat>)
      requires Valid()
      modifies pm, frameAllocator`free, frameAllocator.Repr
      ensures Wired() && frameAllocator.Repr == old(frameAllocator.Repr)
      ensures frame.None? ==> frameAllocator.free == {}
      ensures frame.Some? ==> frame.value in old(frameAllocator.free) && Cloned(old(pm.words), pm.words, F, frame.value)
      ensures frame.Some? ==> frameAllocator.free == old(frameAllocator.free) - {frame.value}
    {
      hide Inv, WalkFrom, Cloned;
      ghost var s0 := Abstract();
      frame := frameAllocator.AllocFrame();
      if frame.Some? {
        FrameAddress(frame.value);
        FreeFrame(s0, pool, frame.value);
        CopyTopLevel(frame.value * PAGE_SIZE, frame.value);
      }
    }

    /** `create_page_table`: the address of a new root, a copy of the reference root. */
    method CreatePageTable() returns (table: Option<nat>)
      requires Valid()
      modifies this`F, pm, frameAllocator`free, frameAllocator.Repr
      ensures frameAllocator.Repr == old(frameAllocator.Repr)
      ensures table.None? ==> frameAllocator.free == {}
      ensures table.Some? ==> Valid() && table.value % PAGE_SIZE == 0
      ensures table.Some? ==> Step(old(Abstract()), NewSpace(table.value / PAGE_SIZE), Abstract(), pool)
    {
      hide Inv, WalkFrom, Step, Cloned;
      ghost var s0 := Abstract();
      var frame := NewRoot();
      if frame.None? { return None; }
      FrameAddress(frame.value);
      F := AddRoot(F, frame.value);
      SpaceIsStep(s0, Abstract(), pool, frame.value);
      return Some(frame.value * PAGE_SIZE);
    }

    /** One turn of the loop of `page_fault_vmalloc`. */
    method SyncEntry(ghost s0: State, table: nat, ghost r: nat, i: nat)
      requires Wired() && Forests.Valid(s0.mem, s0.F) && PartlySynced(s0, Abstract(), r, i) && VM_SLOT <= i < VM_SLOT_END
      requires IsRoot(s0.F, r) && r != s0.F.kroot && table == r * PAGE_SIZE
      modifies pm
      ensures Wired() && PartlySynced(s0, Abstract(), r, i + 1)
    {
      hide WalkFrom, Forests.Valid, PartlySynced;
      ghost var s1 := Abstract();
      SyncGives(s0, s1, r, i);
      assert referencePageTable + i * 8 == SlotAddr(F.kroot, i) && table + i * 8 == SlotAddr(r, i);
      var entry := pm.Read(referencePageTable + i * 8);
      pm.Write(table + i * 8, entry);
      SyncStep(s0, s1, Abstract(), r, i);
    }

    /** The table of a memory space, if there is one, is a process's own. */
    ghost predicate SpaceOk(space: Option<MemorySpace>)
      reads this`F
    {
      space.Some? ==>
        && space.value.pageTable % PAGE_SIZE == 0 && IsRoot(F, space.value.pageTable / PAGE_SIZE)
        && space.value.pageTable / PAGE_SIZE != F.kroot
    }

    /** The loop of `page_fault_vmalloc`. */
    method SyncWindow(space: MemorySpace)
      requires Valid() && SpaceOk(Some(space))
      modifies pm
      ensures Valid() && Step(old(Abstract()), Fault(space.pageTable / PAGE_SIZE), Abstract(), pool)
    {
      hide WalkFrom, PartlySynced, Inv, Step, Index;
      ghost var s0, r := Abstract(), space.pageTable / PAGE_SIZE;
      StartSync(s0, pool, r);
      VmSlots();
      var start, end := Index(VMALLOC_START).0, Index(VMALLOC_END).0;
      for i := start to end
        invariant Wired() && PartlySynced(s0, Abstract(), r, i)
      {
        SyncEntry(s0, space.pageTable, r, i);
      }
      FaultIsStep(s0, Abstract(), pool, r);
    }

    /** `page_fault_vmalloc`; `None` is the panic on a process without a memory space. */
    method PageFaultVmalloc(space: Option<MemorySpace>) returns (ok: Option<bool>)
      requires Valid() && SpaceOk(space)
      modifies pm
      ensures Valid() && ok == if space.Some? then Some(true) else None
      ensures space.None? ==> Abstract() == old(Abstract())
      ensures space.Some? ==> Step(old(Abstract()), Fault(space.value.pageTable / PAGE_SIZE), Abstract(), pool)
    {
      if space.None? { return None; }
      SyncWindow(space.value);
      return Some(true);
    }

    /** `page_fault`: only a fault in the vmalloc window is served; any other changes nothing. */
    method PageFault(vaddr: nat, space: Option<MemorySpace>) returns (ok: Option<bool>)
      requires Valid() && SpaceOk(space)
      modifies pm
      ensures ok == Some(true) <==> VMALLOC_START <= vaddr < VMALLOC_END && space.Some?
      ensures ok == None <==> VMALLOC_START <= vaddr < VMALLOC_END && space.None?
      ensures Valid() && (ok != Some(true) ==> Abstract() == old(Abstract()))
      ensures ok == Some(true) ==>
        var r := space.value.pageTable / PAGE_SIZE;
        && Step(old(Abstract()), Fault(r), Abstract(), pool)
        && Translate(pm.words, r, vaddr) == Translate(pm.words, F.kroot, vaddr)
    {
      hide WalkFrom, Inv, Step, FaultServed, Translate;
      ghost var s0 := Abstract();
      if VMALLOC_START <= vaddr < VMALLOC_END {
        ok := PageFaultVmalloc(space);
        if space.Some? { FaultStepGives(s0, Abstract(), pool, space.value.pageTable / PAGE_SIZE, vaddr); }
        return;
      }
      return Some(false);
    }

    /** `find_region`: the region that contains the address, and `None` exactly when none does. */
    method FindRegion(vaddr: nat) returns (region: Option<VMRegion>)
      requires Valid() && vaddr < WORD_LIMIT
      ensures region.Some? <==> VMALLOC_START <= vaddr < nextAddr
      ensures region.Some? ==> CoveredBy(kernelRegions, region.value.vaddr, vaddr)
      ensures region.Some? ==> kernelRegions[region.value.vaddr] == region.value
      ensures region.Some? ==> forall v | CoveredBy(kernelRegions, v, vaddr) :: v == region.value.vaddr
    {
      hide WalkFrom, Inv, Regions;
      InvGives(Abstract(), pool);
      var page := AlignDown(vaddr, PAGE_SIZE);
      PageStart(vaddr);
      var todo := kernelRegions.Keys;
      while todo != {}
        invariant todo <= kernelRegions.Keys
        invariant forall v | v in kernelRegions && v !in todo :: !CoveredBy(kernelRegions, v, vaddr)
        decreases |todo|
      {
        var v :| v in todo;
        region := Some(kernelRegions[v]);
        var start, end := region.value.vaddr, region.value.vaddr + (region.value.pageCount - 1) * PAGE_SIZE;
        RegionBounds(Abstract(), v, vaddr, page);
        if start <= page <= end {
          return;
        }
        todo := todo - {v};
      }
      RegionThere(Abstract(), vaddr);
      return None;
    }
  }

  lemma BaseGives(s: State, pool: set<nat>, n: nat)
    requires Base(s, pool)
    ensures n < PAGES ==> Request(s.mem, s.F, s.F.kroot, n)
    ensures s.F.user && forall free | free <= s.free :: FramesFit(s.mem, s.F, free)
    ensures forall f | f in s.free :: f < FRAME_LIMIT
  {}

  lemma KernelMappedRoot(s: State, s': State, region: VMRegion, count: nat)
    requires KernelMapped(s, s', region, count)
    ensures s'.F.kroot == s.F.kroot
  {}

  lemma InvGives(s: State, pool: set<nat>)
    requires Inv(s, pool)
    ensures Base(s, pool) && Regions(s) && IsRoot(s.F, s.F.kroot)
  {}

  lemma StartRegion(s: State, region: VMRegion)
    ensures KernelMapped(s, s, region, 0)
  {}

  lemma RegionIsStep(s: State, s1: State, s2: State, region: VMRegion, pool: set<nat>)
    requires Inv(s, pool) && NextRegion(s, region) && Base(s1, pool) && KernelMapped(s, s1, region, region.pageCount)
    requires s2 == s1.(next := region.End(), regions := s.regions[region.vaddr := region])
    ensures Step(s, MapKernel(region), s2, pool) && Inv(s2, pool) && s2.F.kroot == s.F.kroot
  {
    hide WalkFrom, Regions, Base;
    RegionCommitted(s, s1, s2, region, pool);
    assert s2.(next := s.next, regions := s.regions) == s1;
  }

  lemma SameMapping(s: State, s': State, t: State, t': State, free: set<nat>, root: nat, n: nat, d: nat, flags: RegionFlags)
    requires MapsPage(s, s', free, root, n, d, flags) && t.mem == s.mem && t.F == s.F
    requires t'.mem == s'.mem && t'.F == s'.F && t'.free == s'.free
    ensures MapsPage(t, t', free, root, n, d, flags)
  {
    hide Maintains, MapsBlock;
  }

  lemma UserRequest(s: State, pool: set<nat>, r: nat, n: nat)
    requires Base(s, pool) && n < PAGES && !KernelHalf(n) && IsRoot(s.F, r)
    ensures Request(s.mem, s.F, r, n) && s.F.user && forall free | free <= s.free :: FramesFit(s.mem, s.F, free)
    ensures forall f | f in s.free :: f < FRAME_LIMIT
  {}

  lemma StartUser(s: State, r: nat, first: nat, flags: RegionFlags)
    ensures UserMapped(s, s, r, first, 0, flags)
  {}

  lemma UserIsStep(s: State, s': State, r: nat, first: nat, count: nat, flags: RegionFlags, pool: set<nat>)
    requires Inv(s, pool) && Base(s', pool) && UserMapped(s, s', r, first, count, flags) && IsRoot(s.F, r) && r != s.F.kroot
    requires first + count <= USER_PAGES
    ensures Inv(s', pool) && Step(s, MapUser(r, first, count, flags), s', pool) && s'.F.kroot == s.F.kroot
  {
    hide WalkFrom;
    UserMappedKeepsInv(s, s', pool, r, first, count, flags);
  }

  lemma FreeFrame(s: State, pool: set<nat>, f: nat)
    requires Inv(s, pool) && f in s.free
    ensures f !in s.F.nodes && f < FRAME_LIMIT && Slot(f, SLOTS) <= |s.mem|
    ensures Slot(s.F.kroot, SLOTS) <= |s.mem| && IsRoot(s.F, s.F.kroot)
  {
    assert FrameOk(s.mem, s.F, s.F.kroot);
  }

  lemma SpaceIsStep(s: State, s': State, pool: set<nat>, c: nat)
    requires Inv(s, pool) && c in s.free && Cloned(s.mem, s'.mem, s.F, c)
    requires s' == s.(mem := s'.mem, F := AddRoot(s.F, c), free := s.free - {c})
    ensures Inv(s', pool) && Step(s, NewSpace(c), s', pool) && s'.F.kroot == s.F.kroot
  {
    hide WalkFrom;
    SpaceIsCreated(s, s', pool, c);
  }

  lemma SyncGives(s: State, s1: State, r: nat, i: nat)
    requires Forests.Valid(s.mem, s.F) && PartlySynced(s, s1, r, i) && i < SLOTS && IsRoot(s.F, r)
    ensures Slot(r, i) < |s1.mem| && Slot(s.F.kroot, i) < |s1.mem| && s1.F == s.F
  {
    assert FrameOk(s.mem, s.F, r) && FrameOk(s.mem, s.F, s.F.kroot);
  }

  lemma StartSync(s: State, pool: set<nat>, r: nat)
    requires Inv(s, pool)
    ensures Forests.Valid(s.mem, s.F) && PartlySynced(s, s, r, VM_SLOT)
  {}

  lemma VmIndices()
    ensures IndexAt(4, Page(VMALLOC_START)) == VM_SLOT && IndexAt(4, Page(VMALLOC_END)) == VM_SLOT_END
  {
    hide IndexAt, Page;
    HighPage(VMALLOC_START, VM_FIRST);
    HighPage(VMALLOC_END, VM_END);
    TopIndex(VM_FIRST, VM_SLOT);
    TopIndex(VM_END, VM_SLOT_END);
  }

  lemma HighPage(vaddr: nat, n: nat)
    requires vaddr == (0xffff * PAGES + n) * PAGE_SIZE && n < PAGES
    ensures Page(vaddr) == n
  {}

  lemma TopIndex(n: nat, i: nat)
    requires n == i * 0x800_0000 && i < SLOTS
    ensures IndexAt(4, n) == i
  {}

  /** The windows of the kernel half by their entries: direct map, vmalloc and text. */
  lemma Windows()
    ensures Index(PHYSICAL_MEMORY_START) == (273, 0, 0, 0) && Index(PHYSICAL_MEMORY_END) == (305, 0, 0, 0)
    ensures Index(VMALLOC_START) == (337, 0, 0, 0) && Index(VMALLOC_END) == (369, 0, 0, 0)
    ensures Index(KERNEL_TEXT_START) == (511, 510, 0, 0)
    ensures forall a: nat | a in {PHYSICAL_MEMORY_START, PHYSICAL_MEMORY_END, VMALLOC_START, VMALLOC_END, KERNEL_TEXT_START} ::
      a / 0x1_0000_0000_0000 == 0xffff && a % PAGE_SIZE == 0
  {
    WindowIndex(PHYSICAL_MEMORY_START, 273, 0);
    WindowIndex(PHYSICAL_MEMORY_END, 305, 0);
    WindowIndex(VMALLOC_START, 337, 0);
    WindowIndex(VMALLOC_END, 369, 0);
    WindowIndex(KERNEL_TEXT_START, 511, 510);
  }

  lemma WindowIndex(vaddr: nat, i: nat, j: nat)
    requires vaddr == 0xffff_0000_0000_0000 + i * 0x80_0000_0000 + j * 0x4000_0000 && i < SLOTS && j < SLOTS
    ensures Index(vaddr) == (i, j, 0, 0)
  {
    hide Index, IndexAt;
    var n := i * 0x800_0000 + j * 0x4_0000;
    HighPage(vaddr, n);
    IndexIsPath(vaddr);
    SlotsOfPage(n, i, j);
  }

  lemma SlotsOfPage(n: nat, i: nat, j: nat)
    requires n == i * 0x800_0000 + j * 0x4_0000 && i < SLOTS && j < SLOTS
    ensures IndexAt(4, n) == i && IndexAt(3, n) == j && IndexAt(2, n) == 0 && IndexAt(1, n) == 0
  {
    assert n / 0x800_0000 == i && n / 0x4_0000 == i * SLOTS + j && n / 0x200 == (i * SLOTS + j) * SLOTS;
  }

  lemma VmSlots()
    ensures Index(VMALLOC_START).0 == VM_SLOT == 337 && Index(VMALLOC_END).0 == VM_SLOT_END == 369
  {
    hide Index, IndexAt, Page;
    VmIndices();
    IndexIsPath(VMALLOC_START);
    IndexIsPath(VMALLOC_END);
  }

  lemma FaultIsStep(s: State, s': State, pool: set<nat>, r: nat)
    requires Inv(s, pool) && IsRoot(s.F, r) && r != s.F.kroot && PartlySynced(s, s', r, VM_SLOT_END)
    ensures Inv(s', pool) && Step(s, Fault(r), s', pool)
  {
    hide WalkFrom;
    FaultKeeps(s, s', pool, r);
  }

  lemma FaultStepGives(s: State, s': State, pool: set<nat>, r: nat, vaddr: nat)
    requires Step(s, Fault(r), s', pool) && VMALLOC_START <= vaddr < VMALLOC_END
    ensures Translate(s'.mem, r, vaddr) == Translate(s'.mem, s'.F.kroot, vaddr)
  {
    hide WalkFrom;
    FaultSyncs(s, s', r, vaddr);
  }

  lemma PageStart(vaddr: nat)
    requires vaddr < WORD_LIMIT
    ensures AlignDown(vaddr, PAGE_SIZE) == vaddr / PAGE_SIZE * PAGE_SIZE
  {
    Pow2Values();
    AlignDownIsMultiple(vaddr, 12);
  }

  lemma RegionBounds(s: State, v: nat, a: nat, page: nat)
    requires Regions(s) && v in s.regions && page == a / PAGE_SIZE * PAGE_SIZE
    ensures s.regions[v].vaddr == v && s.regions[v].pageCount > 0
    ensures v <= page <= v + (s.regions[v].pageCount - 1) * PAGE_SIZE <==> CoveredBy(s.regions, v, a)
    ensures CoveredBy(s.regions, v, a) ==> VMALLOC_START <= a < s.next
    ensures CoveredBy(s.regions, v, a) ==> forall w | CoveredBy(s.regions, w, a) :: w == v
  {
    assert RegionOk(s, v);
    if CoveredBy(s.regions, v, a) {
      forall w | CoveredBy(s.regions, w, a) ensures w == v {
        assert RegionOk(s, w);
      }
    }
  }

  lemma RegionThere(s: State, a: nat)
    requires Regions(s)
    ensures VMALLOC_START <= a < s.next ==> InRegion(s.regions, a)
  {}

  /** A 4K page is never in the way of itself. */
  lemma NeverBlocked(mem: seq<Word>, root: nat, n: nat)
    ensures !BlockedBelow(mem, root, n, 1)
  {}

  lemma BlockFrame(offset: nat)
    requires offset % BLOCK_SIZE == 0 && offset < DIRECT_BLOCKS * BLOCK_SIZE
    ensures offset / PAGE_SIZE == offset / BLOCK_SIZE * 512 && offset == offset / BLOCK_SIZE * BLOCK_SIZE
    ensures offset % (PAGE_SIZE * Reach(Page2M.Level())) == 0 && offset / PAGE_SIZE < FRAME_LIMIT
  {}

  lemma HighestBelow(es: seq<MapEntry>, address: nat)
    requires HighestEnd(es, address) && forall e | e in es :: e.End() < DIRECT_BLOCKS * BLOCK_SIZE
    ensures address < DIRECT_BLOCKS * BLOCK_SIZE
  {}

  lemma {:induction false} HighestExists(es: seq<MapEntry>) returns (address: nat)
    ensures HighestEnd(es, address)
  {
    address := 0;
    if es != [] {
      var front, last := es[..|es| - 1], es[|es| - 1];
      address := HighestExists(front);
      HighestEndGrows(front, last, address);
      assert es == front + [last];
      if address < last.End() { address := last.End(); }
    }
  }

  lemma HighestEndGrows(es: seq<MapEntry>, e: MapEntry, address: nat)
    requires HighestEnd(es, address)
    ensures HighestEnd(es + [e], if address < e.End() then e.End() else address)
  {
    var more := es + [e];
    assert more[|es|] == e;
    assert forall x | x in es :: x in more;
  }
}
