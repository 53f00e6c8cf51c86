/** The memory manager's state as a value: translations, frame ownership and kernel regions;
    what one operation does to it, and what whole runs of operations keep. */
module MemoryModel {
  import opened Wrappers
  import opened Entries
  import opened Walks
  import opened Forests
  import opened Paths
  import opened PageTables
  import opened Spaces

  const VMALLOC_START: nat := 0xffff_a880_0000_0000
  const VMALLOC_END: nat := 0xffff_b880_0000_0000
  const VM_FIRST: nat := 0xa_8800_0000
  const VM_END: nat := 0xb_8800_0000
  const USER_END: nat := 0x8000_0000_0000
  const USER_PAGES: nat := 0x8_0000_0000

  /** What an allocated data frame is for: a page of one address space, or a kernel page. */
  datatype Use = Use(owner: Owner, page: nat)

  datatype VMRegion = VMRegion(vaddr: nat, paddr: Option<nat>, pageCount: nat, flags: RegionFlags) {
    function End(): nat {
      vaddr + pageCount * PAGE_SIZE
    }
  }

  datatype State = State(mem: seq<Word>, F: Forest, free: set<nat>, use: map<nat, Use>,
                         next: nat, regions: map<nat, VMRegion>)

  function Walk(s: State, r: nat, n: nat): Option<Mapping> {
    WalkPage(s.mem, r, n)
  }

  // The invariant.

  /** Every frame of the pool is free, a table or a data frame, and only one of these. */
  ghost predicate Owned(s: State, pool: set<nat>) {
    && FramesFit(s.mem, s.F, s.free)
    && s.use.Keys !! s.free && s.use.Keys !! s.F.nodes.Keys
    && pool == s.free + s.F.nodes.Keys + s.use.Keys
  }

  ghost predicate HoldsPage(s: State, m: Mapping, owner: Owner, n: nat, flags: RegionFlags) {
    && m == Mapping(m.frame, 1, flags.write, true, flags.disableCache)
    && m.frame in s.use && s.use[m.frame] == Use(owner, n)
  }

  ghost predicate UserPageOk(s: State, r: nat, n: nat) {
    Walk(s, r, n).Some? ==>
      var m := Walk(s, r, n).value;
      m.level == 1 && m.frame in s.use && s.use[m.frame] == Use(Space(r), n)
  }

  /** A page of a user half is a 4K page whose frame is recorded for that page of that space. */
  ghost predicate UserPages(s: State) {
    forall r, n: nat | IsRoot(s.F, r) && n < PAGES && !KernelHalf(n) :: UserPageOk(s, r, n)
  }

  ghost predicate RegionPageOk(s: State, region: VMRegion, k: nat) {
    var n := Page(region.vaddr) + k;
    && Walk(s, s.F.kroot, n).Some?
    && var m := Walk(s, s.F.kroot, n).value;
       match region.paddr
       case None => HoldsPage(s, m, Kernel, n, region.flags)
       case Some(p) => m == Mapping(p / PAGE_SIZE + k, 1, region.flags.write, true, region.flags.disableCache)
  }

  ghost predicate RegionOk(s: State, v: nat)
    requires v in s.regions
  {
    var region := s.regions[v];
    && region.vaddr == v && v % PAGE_SIZE == 0 && VMALLOC_START <= v && region.pageCount > 0 && region.End() <= s.next
    && forall k: nat | k < region.pageCount :: RegionPageOk(s, region, k)
  }

  ghost predicate RegionsApart(regions: map<nat, VMRegion>) {
    forall v, w | v in regions && w in regions && v < w :: regions[v].End() <= w
  }

  ghost predicate CoveredBy(regions: map<nat, VMRegion>, v: nat, a: nat) {
    v in regions && v <= a < regions[v].End()
  }

  ghost predicate InRegion(regions: map<nat, VMRegion>, a: nat) {
    exists v :: CoveredBy(regions, v, a)
  }

  /** The regions tile the window up to the next address, and nothing is mapped beyond it. */
  ghost predicate Regions(s: State) {
    && VMALLOC_START <= s.next <= VMALLOC_END && s.next % PAGE_SIZE == 0
    && (forall v | v in s.regions :: RegionOk(s, v))
    && RegionsApart(s.regions)
    && (forall a: nat | VMALLOC_START <= a < s.next :: InRegion(s.regions, a))
    && (forall n: nat | VmPage(s.next) <= n < VM_END :: Walk(s, s.F.kroot, n) == None)
  }

  /** Page number of a vmalloc address, also for the end of the window. */
  function VmPage(vaddr: nat): int {
    VM_FIRST + (vaddr - VMALLOC_START) / PAGE_SIZE
  }

  lemma VmPageIsPage(vaddr: nat)
    requires VMALLOC_START <= vaddr < VMALLOC_END
    ensures Page(vaddr) == VmPage(vaddr) && VM_FIRST <= Page(vaddr) < VM_END
  {
    var p := vaddr / PAGE_SIZE;
    assert p == 0xffff * PAGES + (p - 0xffff * PAGES);
  }

  lemma VmPages(vaddr: nat, k: nat)
    requires VMALLOC_START <= vaddr && vaddr % PAGE_SIZE == 0 && vaddr + k * PAGE_SIZE < VMALLOC_END
    ensures Page(vaddr) == VmPage(vaddr) && Page(vaddr + k * PAGE_SIZE) == Page(vaddr) + k
    ensures VM_FIRST <= Page(vaddr) && Page(vaddr) + k < VM_END
    ensures VmPage(vaddr + k * PAGE_SIZE) == VmPage(vaddr) + k
  {
    VmPageIsPage(vaddr);
    VmPageIsPage(vaddr + k * PAGE_SIZE);
  }

  lemma VmHalf(n: nat)
    requires VM_FIRST <= n < VM_END
    ensures n < PAGES && KernelHalf(n) && 337 <= IndexAt(4, n) < 369
  {}

  /** The part of the invariant that holds between the pages of one operation. */
  ghost predicate Base(s: State, pool: set<nat>) {
    Valid(s.mem, s.F) && s.F.user && KernelOnly(s.mem, s.F) && Owned(s, pool) && UserPages(s)
  }

  ghost predicate Inv(s: State, pool: set<nat>) {
    Base(s, pool) && Regions(s)
  }

  // One page.

  /** The page fault handler's view of a root's kernel half: a top-level entry that is there
      is the reference root's. */
  lemma KernelHalfView(mem: seq<Word>, F: Forest, r: nat, n: nat)
    requires Valid(mem, F) && IsRoot(F, r) && n < PAGES && KernelHalf(n)
    ensures WalkPage(mem, r, n) ==
      if Present(EntryOn(mem, r, 4, n)) then WalkPage(mem, F.kroot, n) else None
  {
    var k, i := F.kroot, IndexAt(4, n);
    assert FrameOk(mem, F, r) && FrameOk(mem, F, k);
    Child(mem, F, r, n);
    Child(mem, F, k, n);
    EntryBelowTop(mem, F, r, i);
    EntryBelowTop(mem, F, k, i);
    if Present(EntryOn(mem, r, 4, n)) {
      var c := FrameOf(EntryOn(mem, r, 4, n));
      assert ParentOk(mem, F, c);
      assert F.nodes[c].parent == k && F.nodes[c].prefix % SLOTS == i;
    }
  }

  /** Top-level entries of one half of `root` may be filled where they are absent; all other
      top-level entries stay. */
  ghost predicate TopStable(mem: seq<Word>, mem': seq<Word>, F: Forest, root: nat, kernel: bool) {
    && |mem'| == |mem|
    && forall r, i: nat | IsRoot(F, r) && i < SLOTS && Slot(r, i) < |mem| &&
                          (r != root || (i >= KERNEL_SLOT) != kernel || Present(mem[Slot(r, i)])) ::
         mem'[Slot(r, i)] == mem[Slot(r, i)]
  }

  lemma TopStableTrans(mem0: seq<Word>, mem1: seq<Word>, mem2: seq<Word>, F0: Forest, F: Forest, root: nat, kernel: bool)
    requires Extends(F0, F)
    requires TopStable(mem0, mem1, F0, root, kernel) && TopStable(mem1, mem2, F, root, kernel)
    ensures TopStable(mem0, mem2, F0, root, kernel)
  {}

  ghost predicate SameRoots(F: Forest, F': Forest) {
    Extends(F, F') && forall r :: IsRoot(F', r) <==> IsRoot(F, r)
  }

  /** The call that maps page `n` of `root` to frame `d`, seen from the state. */
  ghost predicate MapsPage(s: State, s': State, free: set<nat>, root: nat, n: nat, d: nat, flags: RegionFlags) {
    && Maintains(s.mem, s.F, free, s'.mem, s'.F, s'.free, root, n, 1)
    && MapsBlock(s.mem, s'.mem, s.F, root, n, 1, d, PageFlags(flags))
  }

  /** The effect of mapping one page: it changes in the roots that share its tables, and only there. */
  ghost predicate PageMapped(s: State, s': State, root: nat, n: nat, m: Mapping) {
    forall q, k: nat | IsRoot(s.F, q) && k < PAGES ::
      Walk(s', q, k) == if k == n && Shares(s.mem, q, root, n) then Some(m) else Walk(s, q, k)
  }

  lemma OnePageRoots(s: State, s': State, free: set<nat>, root: nat, n: nat)
    requires n < PAGES && Maintains(s.mem, s.F, free, s'.mem, s'.F, s'.free, root, n, 1)
    ensures SameRoots(s.F, s'.F) && TopStable(s.mem, s'.mem, s.F, root, KernelHalf(n))
  {
    hide Valid;
  }

  lemma OnePageAt(s: State, s': State, root: nat, n: nat, d: nat, flags: RegionFlags, q: nat, k: nat)
    requires s.F.user && IsRoot(s.F, q) && n < PAGES && k < PAGES && LeafLevel(s.mem, root, n) <= 1
    requires MapsBlock(s.mem, s'.mem, s.F, root, n, 1, d, PageFlags(flags))
    ensures Walk(s', q, k) ==
      if k == n && Shares(s.mem, q, root, n) then Some(Mapping(d, 1, flags.write, true, flags.disableCache))
      else Walk(s, q, k)
  {
    hide WalkFrom, Shares;
    assert Target(s.mem, root, n, 1, q, k) <==> k == n && Shares(s.mem, q, root, n);
    assert !Emptied(s.mem, root, n, 1, q, k);
  }

  lemma OnePage(s: State, s': State, free: set<nat>, root: nat, n: nat, d: nat, flags: RegionFlags)
    requires s.F.user && n < PAGES && LeafLevel(s.mem, root, n) <= 1
    requires MapsPage(s, s', free, root, n, d, flags)
    ensures PageMapped(s, s', root, n, Mapping(d, 1, flags.write, true, flags.disableCache))
    ensures SameRoots(s.F, s'.F) && TopStable(s.mem, s'.mem, s.F, root, KernelHalf(n))
  {
    hide WalkFrom, MapsBlock, Shares;
    OnePageRoots(s, s', free, root, n);
    forall q, k: nat | IsRoot(s.F, q) && k < PAGES
      ensures Walk(s', q, k) ==
        if k == n && Shares(s.mem, q, root, n) then Some(Mapping(d, 1, flags.write, true, flags.disableCache))
        else Walk(s, q, k)
    {
      OnePageAt(s, s', root, n, d, flags, q, k);
    }
  }

  lemma KernelOnlyKept(mem: seq<Word>, mem': seq<Word>, F: Forest, F': Forest, root: nat, kernel: bool)
    requires KernelOnly(mem, F) && IsRoot(F, F.kroot) && Extends(F, F') && TopStable(mem, mem', F, root, kernel)
    requires kernel || root != F.kroot
    ensures KernelOnly(mem', F')
  {}

  lemma OwnedStep(s: State, s': State, pool: set<nat>, d: nat, use: Use)
    requires Owned(s, pool) && d in s.free && s'.use == s.use[d := use]
    requires TablesTaken(s.F, s'.F, s.free - {d}, s'.free) && FramesFit(s'.mem, s'.F, s'.free)
    ensures Owned(s', pool)
  {}

  ghost predicate UseGrows(use: map<nat, Use>, use': map<nat, Use>) {
    forall f | f in use :: f in use' && use'[f] == use[f]
  }

  lemma UserPagesKept(s: State, s': State, root: nat, n: nat, m: Mapping)
    requires UserPages(s) && SameRoots(s.F, s'.F) && PageMapped(s, s', root, n, m) && UseGrows(s.use, s'.use)
    requires !KernelHalf(n) ==> m.level == 1 && m.frame in s'.use && s'.use[m.frame] == Use(Space(root), n)
    ensures UserPages(s')
  {
    hide WalkFrom;
    forall q, k: nat | IsRoot(s'.F, q) && k < PAGES && !KernelHalf(k) ensures UserPageOk(s', q, k) {
      assert UserPageOk(s, q, k);
      assert IsRoot(s.F, q);
    }
  }

  /** One page of `map_in_userspace`: the frame `d` just allocated becomes page `n` of space `r`. */
  lemma UserPageStep(s: State, s': State, pool: set<nat>, r: nat, n: nat, d: nat, flags: RegionFlags)
    requires Base(s, pool) && IsRoot(s.F, r) && r != s.F.kroot && n < PAGES && !KernelHalf(n) && d in s.free
    requires MapsPage(s, s', s.free - {d}, r, n, d, flags)
    requires s' == s.(mem := s'.mem, F := s'.F, free := s'.free, use := s.use[d := Use(Space(r), n)])
    ensures Base(s', pool) && PageMapped(s, s', r, n, Mapping(d, 1, flags.write, true, flags.disableCache))
    ensures SameRoots(s.F, s'.F) && TopStable(s.mem, s'.mem, s.F, r, false)
  {
    hide WalkFrom, Valid, MapsBlock, PageMapped, TopStable, OnlyTables, NewTablesServe;
    assert UserPageOk(s, r, n);
    OnePage(s, s', s.free - {d}, r, n, d, flags);
    UserPagesKept(s, s', r, n, Mapping(d, 1, flags.write, true, flags.disableCache));
    ValidGives(s.mem, s.F);
    KernelOnlyKept(s.mem, s'.mem, s.F, s'.F, r, false);
    OwnedStep(s, s', pool, d, Use(Space(r), n));
  }

  lemma ValidGives(mem: seq<Word>, F: Forest)
    requires Valid(mem, F)
    ensures IsRoot(F, F.kroot)
  {}

  lemma RootFrame(mem: seq<Word>, F: Forest, r: nat)
    requires Valid(mem, F) && IsRoot(F, r)
    ensures Slot(r, SLOTS) <= |mem|
  {
    assert FrameOk(mem, F, r);
  }

  /** One page of `map_region`: of an anonymous region, whose frame `d` was just allocated, or
      of a region over given physical memory, for which no data frame is taken. */
  lemma KernelPageStep(s: State, s': State, pool: set<nat>, n: nat, anonymous: bool, d: nat, flags: RegionFlags)
    requires Base(s, pool) && VM_FIRST <= n < VM_END && Walk(s, s.F.kroot, n).None?
    requires anonymous ==> d in s.free
    requires MapsPage(s, s', if anonymous then s.free - {d} else s.free, s.F.kroot, n, d, flags)
    requires s' == s.(mem := s'.mem, F := s'.F, free := s'.free,
                      use := if anonymous then s.use[d := Use(Kernel, n)] else s.use)
    ensures Base(s', pool) && PageMapped(s, s', s.F.kroot, n, Mapping(d, 1, flags.write, true, flags.disableCache))
    ensures SameRoots(s.F, s'.F) && TopStable(s.mem, s'.mem, s.F, s.F.kroot, true)
  {
    hide WalkFrom, Valid, MapsBlock, PageMapped, TopStable, OnlyTables, NewTablesServe;
    VmHalf(n);
    OnePage(s, s', if anonymous then s.free - {d} else s.free, s.F.kroot, n, d, flags);
    UserPagesKept(s, s', s.F.kroot, n, Mapping(d, 1, flags.write, true, flags.disableCache));
    ValidGives(s.mem, s.F);
    KernelOnlyKept(s.mem, s'.mem, s.F, s'.F, s.F.kroot, true);
    if anonymous { OwnedStep(s, s', pool, d, Use(Kernel, n)); }
  }

  // Several pages.

  /** Page `n` holds a frame that was free before and is now recorded for it. */
  ghost predicate FreshPage(s: State, s': State, owner: Owner, r: nat, n: nat, flags: RegionFlags) {
    && Walk(s', r, n).Some? && HoldsPage(s', Walk(s', r, n).value, owner, n, flags)
    && Walk(s', r, n).value.frame in s.free
  }

  /** What stays between the states of one operation. */
  ghost predicate Later(s: State, s': State, root: nat, kernel: bool) {
    && SameRoots(s.F, s'.F) && s'.free <= s.free && UseGrows(s.use, s'.use)
    && TopStable(s.mem, s'.mem, s.F, root, kernel) && s'.next == s.next && s'.regions == s.regions
  }

  /** Page `s.use[f].page` of `root` is mapped to the recorded frame `f`. */
  ghost predicate HeldBy(s: State, root: nat, f: nat)
    requires f in s.use
  {
    var n := s.use[f].page;
    n < PAGES && Walk(s, root, n).Some? && Walk(s, root, n).value.frame == f
  }

  /** Frames come into use only for the pages just mapped, and are mapped there. */
  ghost predicate UseAdds(s: State, s': State, owner: Owner, root: nat, first: nat, count: nat) {
    forall f | f in s'.use && f !in s.use ::
      s'.use[f].owner == owner && first <= s'.use[f].page < first + count && HeldBy(s', root, f)
  }

  ghost predicate UserMapped(s: State, s': State, r: nat, first: nat, count: nat, flags: RegionFlags) {
    && Later(s, s', r, false) && UseAdds(s, s', Space(r), r, first, count)
    && forall q, n: nat | IsRoot(s.F, q) && n < PAGES ::
         if q == r && first <= n < first + count then FreshPage(s, s', Space(r), q, n, flags)
         else Walk(s', q, n) == Walk(s, q, n)
  }

  lemma LaterTrans(s: State, s1: State, s2: State, root: nat, kernel: bool)
    requires Later(s, s1, root, kernel) && Later(s1, s2, root, kernel)
    ensures Later(s, s2, root, kernel)
  {
    TopStableTrans(s.mem, s1.mem, s2.mem, s.F, s1.F, root, kernel);
  }

  lemma UseAddsPage(s: State, s1: State, s2: State, owner: Owner, root: nat, first: nat, count: nat, m: Mapping)
    requires UseAdds(s, s1, owner, root, first, count) && IsRoot(s1.F, root) && first + count < PAGES
    requires PageMapped(s1, s2, root, first + count, m) && Shares(s1.mem, root, root, first + count)
    requires s2.use == s1.use[m.frame := Use(owner, first + count)]
    ensures UseAdds(s, s2, owner, root, first, count + 1)
  {
    hide WalkFrom;
    forall f | f in s2.use && f !in s.use
      ensures s2.use[f].owner == owner && first <= s2.use[f].page < first + (count + 1) && HeldBy(s2, root, f)
    {
      if f != m.frame { assert HeldBy(s1, root, f); }
    }
  }

  lemma UserMappedStep(s: State, s1: State, s2: State, r: nat, first: nat, count: nat, d: nat, flags: RegionFlags)
    requires UserMapped(s, s1, r, first, count, flags) && Later(s1, s2, r, false) && d in s1.free
    requires first + count < PAGES && !KernelHalf(first + count)
    requires PageMapped(s1, s2, r, first + count, Mapping(d, 1, flags.write, true, flags.disableCache))
    requires s2.use == s1.use[d := Use(Space(r), first + count)] && IsRoot(s.F, r)
    ensures UserMapped(s, s2, r, first, count + 1, flags)
  {
    hide WalkFrom, TopStable;
    LaterTrans(s, s1, s2, r, false);
    UseAddsPage(s, s1, s2, Space(r), r, first, count, Mapping(d, 1, flags.write, true, flags.disableCache));
    forall q, n: nat | IsRoot(s.F, q) && n < PAGES
      ensures if q == r && first <= n < first + (count + 1) then FreshPage(s, s2, Space(r), q, n, flags)
              else Walk(s2, q, n) == Walk(s, q, n)
    {
      assert Shares(s1.mem, q, r, first + count) <==> q == r;
    }
  }

  /** The first `count` pages of a new region are mapped in the reference table, and in every
      root that already had the top-level entry. */
  ghost predicate KernelMapped(s: State, s': State, region: VMRegion, count: nat) {
    && Later(s, s', s.F.kroot, true)
    && (if region.paddr.Some? then s'.use == s.use
        else UseAdds(s, s', Kernel, s.F.kroot, Page(region.vaddr), count))
    && (forall k: nat | k < count :: RegionPageOk(s', region, k))
    && (forall q, n: nat | IsRoot(s.F, q) && n < PAGES ::
          Walk(s', q, n) ==
            if Page(region.vaddr) <= n < Page(region.vaddr) + count && Shares(s.mem, q, s.F.kroot, n)
            then Walk(s', s.F.kroot, n) else Walk(s, q, n))
  }

  /** The region starts at the next address and stays in the window. */
  ghost predicate NextRegion(s: State, region: VMRegion) {
    region.vaddr == s.next && region.pageCount > 0 && region.End() <= VMALLOC_END
  }

  lemma RegionPages(s: State, region: VMRegion, k: nat)
    requires Regions(s) && NextRegion(s, region) && k < region.pageCount
    ensures var n := Page(region.vaddr) + k;
      VM_FIRST <= n < VM_END && n == VmPage(s.next) + k && Walk(s, s.F.kroot, n).None?
  {
    VmPages(region.vaddr, k);
  }

  lemma SharersStay(s: State, s1: State, q: nat, n: nat)
    requires Later(s, s1, s.F.kroot, true) && IsRoot(s.F, q) && n < PAGES
    ensures Shares(s1.mem, q, s.F.kroot, n) <==> Shares(s.mem, q, s.F.kroot, n)
  {}

  lemma KernelMappedStep(s: State, s1: State, s2: State, region: VMRegion, count: nat, d: nat)
    requires Regions(s) && NextRegion(s, region) && count < region.pageCount
    requires KernelMapped(s, s1, region, count) && Later(s1, s2, s.F.kroot, true)
    requires var flags := region.flags;
      PageMapped(s1, s2, s.F.kroot, Page(region.vaddr) + count, Mapping(d, 1, flags.write, true, flags.disableCache))
    requires match region.paddr
      case None => s2.use == s1.use[d := Use(Kernel, Page(region.vaddr) + count)]
      case Some(p) => d == p / PAGE_SIZE + count && s2.use == s1.use
    requires IsRoot(s.F, s.F.kroot)
    ensures KernelMapped(s, s2, region, count + 1)
  {
    hide WalkFrom, TopStable, Regions;
    LaterTrans(s, s1, s2, s.F.kroot, true);
    var base, kroot := Page(region.vaddr), s.F.kroot;
    RegionPages(s, region, count);
    if region.paddr.None? {
      var flags := region.flags;
      UseAddsPage(s, s1, s2, Kernel, kroot, base, count, Mapping(d, 1, flags.write, true, flags.disableCache));
    }
    forall k: nat | k < count + 1 ensures RegionPageOk(s2, region, k) {
      RegionPages(s, region, k);
      if k < count { assert RegionPageOk(s1, region, k); }
    }
    forall q, n: nat | IsRoot(s.F, q) && n < PAGES
      ensures Walk(s2, q, n) == if base <= n < base + (count + 1) && Shares(s.mem, q, kroot, n)
                                then Walk(s2, kroot, n) else Walk(s, q, n)
    {
      SharersStay(s, s1, q, n);
    }
  }

  /** One page of `map_region`, from the call that maps it to the region's progress. */
  lemma KernelPageDone(s: State, s1: State, s2: State, pool: set<nat>, region: VMRegion, count: nat, d: nat)
    requires Regions(s) && NextRegion(s, region) && count < region.pageCount && IsRoot(s.F, s.F.kroot)
    requires Base(s1, pool) && KernelMapped(s, s1, region, count) && s1.F.kroot == s.F.kroot
    requires region.paddr.None? ==> d in s1.free
    requires region.paddr.Some? ==> d == region.paddr.value / PAGE_SIZE + count
    requires MapsPage(s1, s2, if region.paddr.None? then s1.free - {d} else s1.free, s.F.kroot,
                      Page(region.vaddr) + count, d, region.flags)
    requires s2 == s1.(mem := s2.mem, F := s2.F, free := s2.free,
                       use := if region.paddr.None? then s1.use[d := Use(Kernel, Page(region.vaddr) + count)] else s1.use)
    ensures Base(s2, pool) && KernelMapped(s, s2, region, count + 1)
  {
    hide WalkFrom, Valid, MapsBlock, PageMapped, TopStable, Regions, Page;
    var n := Page(region.vaddr) + count;
    NextPageUnmapped(s, s1, region, count);
    KernelPageStep(s1, s2, pool, n, region.paddr.None?, d, region.flags);
    KernelMappedStep(s, s1, s2, region, count, d);
  }

  lemma NextPageUnmapped(s: State, s1: State, region: VMRegion, count: nat)
    requires Regions(s) && NextRegion(s, region) && count < region.pageCount && IsRoot(s.F, s.F.kroot)
    requires KernelMapped(s, s1, region, count)
    ensures var n := Page(region.vaddr) + count;
      Page(region.vaddr + count * PAGE_SIZE) == n && VM_FIRST <= n < VM_END && Walk(s1, s.F.kroot, n).None?
  {
    hide WalkFrom, Page, VmPage, TopStable;
    RegionPages(s, region, count);
    VmPages(region.vaddr, count);
    VmHalf(Page(region.vaddr) + count);
  }

  lemma RegionsAppend(regions: map<nat, VMRegion>, more: map<nat, VMRegion>, region: VMRegion, next: nat)
    requires more == regions[next := region]
    requires forall v | v in regions :: VMALLOC_START <= v && regions[v].End() <= next && regions[v].pageCount > 0
    requires forall v | v in regions :: regions[v].vaddr == v
    requires RegionsApart(regions) && region.vaddr == next && region.pageCount > 0
    requires forall a: nat | VMALLOC_START <= a < next :: InRegion(regions, a)
    ensures RegionsApart(more)
    ensures forall a: nat | VMALLOC_START <= a < region.End() :: InRegion(more, a)
  {
    forall v, w | v in more && w in more && v < w ensures more[v].End() <= w {
      if w in regions && w != next { assert regions[w].End() <= next; }
    }
    forall a: nat | VMALLOC_START <= a < region.End() ensures InRegion(more, a) {
      if a < next {
        assert InRegion(regions, a);
        var v: nat :| CoveredBy(regions, v, a);
        assert CoveredBy(more, v, a);
      } else {
        assert CoveredBy(more, next, a);
      }
    }
  }

  lemma OldRegionKept(s: State, s1: State, s2: State, region: VMRegion, v: nat)
    requires Regions(s) && NextRegion(s, region) && KernelMapped(s, s1, region, region.pageCount)
    requires s2 == s1.(next := region.End(), regions := s.regions[region.vaddr := region])
    requires IsRoot(s.F, s.F.kroot) && v in s.regions
    ensures v < region.vaddr && RegionOk(s, v) && RegionOk(s2, v)
  {
    hide WalkFrom, TopStable;
    assert RegionOk(s, v);
    RegionPages(s, region, 0);
    forall k: nat | k < s.regions[v].pageCount ensures RegionPageOk(s2, s.regions[v], k) {
      assert RegionPageOk(s, s.regions[v], k);
      VmPages(v, k);
      VmHalf(Page(v) + k);
    }
  }

  lemma BaseIgnoresRegions(s1: State, s2: State, pool: set<nat>)
    requires Base(s1, pool) && s2 == s1.(next := s2.next, regions := s2.regions)
    ensures Base(s2, pool)
  {
    hide WalkFrom, Valid, FramesFit;
    forall r, n: nat | IsRoot(s2.F, r) && n < PAGES && !KernelHalf(n) ensures UserPageOk(s2, r, n) {
      assert UserPageOk(s1, r, n);
    }
  }

  lemma NewRegionOk(s: State, s1: State, s2: State, region: VMRegion)
    requires NextRegion(s, region) && VMALLOC_START <= s.next && s.next % PAGE_SIZE == 0
    requires KernelMapped(s, s1, region, region.pageCount)
    requires s2 == s1.(next := region.End(), regions := s.regions[region.vaddr := region])
    ensures RegionOk(s2, region.vaddr)
  {
    hide WalkFrom, TopStable, UseAdds;
    forall k: nat | k < region.pageCount ensures RegionPageOk(s2, region, k) {
      assert RegionPageOk(s1, region, k);
    }
  }

  lemma RegionsGrow(s: State, s1: State, s2: State, region: VMRegion)
    requires Regions(s) && NextRegion(s, region) && KernelMapped(s, s1, region, region.pageCount) && IsRoot(s.F, s.F.kroot)
    requires s2 == s1.(next := region.End(), regions := s.regions[region.vaddr := region]) && s1.F.kroot == s.F.kroot
    ensures Regions(s2)
  {
    hide WalkFrom, KernelMapped, RegionPageOk;
    forall v | v in s.regions ensures RegionOk(s, v) && RegionOk(s2, v) && v < region.vaddr {
      OldRegionKept(s, s1, s2, region, v);
    }
    NewRegionOk(s, s1, s2, region);
    RegionsAppend(s.regions, s2.regions, region, s.next);
    UnmappedBeyond(s, s1, s2, region);
  }

  /** Recording the mapped region restores the invariant. */
  lemma RegionCommitted(s: State, s1: State, s2: State, region: VMRegion, pool: set<nat>)
    requires Inv(s, pool) && NextRegion(s, region) && Base(s1, pool) && KernelMapped(s, s1, region, region.pageCount)
    requires s2 == s1.(next := region.End(), regions := s.regions[region.vaddr := region])
    ensures Inv(s2, pool)
  {
    hide WalkFrom, Valid, TopStable, Regions, UserPages, Owned, UseAdds, RegionPageOk;
    ValidGives(s.mem, s.F);
    BaseIgnoresRegions(s1, s2, pool);
    RegionsGrow(s, s1, s2, region);
  }

  lemma UnmappedBeyond(s: State, s1: State, s2: State, region: VMRegion)
    requires Regions(s) && NextRegion(s, region) && KernelMapped(s, s1, region, region.pageCount)
    requires s2 == s1.(next := region.End(), regions := s.regions[region.vaddr := region])
    requires IsRoot(s.F, s.F.kroot)
    ensures forall n: nat | VmPage(s2.next) <= n < VM_END :: Walk(s2, s.F.kroot, n) == None
  {
    hide WalkFrom, TopStable;
    forall n: nat | VmPage(s2.next) <= n < VM_END ensures Walk(s2, s.F.kroot, n) == None {
      RegionPages(s, region, region.pageCount - 1);
      VmHalf(n);
      assert Walk(s2, s.F.kroot, n) == Walk(s1, s.F.kroot, n) == Walk(s, s.F.kroot, n);
    }
  }

  // A new address space.

  lemma ReferenceUserHalf(mem: seq<Word>, F: Forest, n: nat)
    requires Valid(mem, F) && KernelOnly(mem, F) && n < PAGES && !KernelHalf(n)
    ensures WalkPage(mem, F.kroot, n) == None
  {
    assert FrameOk(mem, F, F.kroot);
  }

  ghost predicate SpaceCreated(s: State, s': State, c: nat) {
    && c in s.free && s' == s.(mem := s'.mem, F := AddRoot(s.F, c), free := s.free - {c})
    && (forall r, n: nat | IsRoot(s.F, r) && n < PAGES :: Walk(s', r, n) == Walk(s, r, n))
    && (forall r, i: nat | IsRoot(s.F, r) && i < SLOTS && Slot(r, i) < |s.mem| ::
          Slot(r, i) < |s'.mem| && s'.mem[Slot(r, i)] == s.mem[Slot(r, i)])
    && (forall n: nat | n < PAGES :: Walk(s', c, n) == Walk(s, s.F.kroot, n))
  }

  lemma SpaceUserPages(s: State, s': State, c: nat)
    requires Valid(s.mem, s.F) && KernelOnly(s.mem, s.F) && UserPages(s) && SpaceCreated(s, s', c)
    ensures UserPages(s')
  {
    hide WalkFrom, Valid;
    forall r, n: nat | IsRoot(s'.F, r) && n < PAGES && !KernelHalf(n) ensures UserPageOk(s', r, n) {
      if r == c { ReferenceUserHalf(s.mem, s.F, n); } else {
        assert IsRoot(s.F, r) && UserPageOk(s, r, n);
      }
    }
  }

  lemma SpaceFrames(s: State, s': State, pool: set<nat>, c: nat)
    requires Owned(s, pool) && SpaceCreated(s, s', c) && |s'.mem| == |s.mem|
    ensures Owned(s', pool)
  {
    hide Walk;
  }

  lemma SpaceKeepsBase(s: State, s': State, pool: set<nat>, c: nat)
    requires Base(s, pool) && c in s.free && Cloned(s.mem, s'.mem, s.F, c)
    requires s' == s.(mem := s'.mem, F := AddRoot(s.F, c), free := s.free - {c})
    ensures Base(s', pool) && SpaceCreated(s, s', c)
  {
    hide WalkFrom, Valid, UserPages, Owned;
    ClonedIsValid(s.mem, s'.mem, s.F, c);
    ClonedWalks(s.mem, s'.mem, s.F, c);
    ClonedKeepsTables(s.mem, s'.mem, s.F, c);
    ValidGives(s.mem, s.F);
    SpaceUserPages(s, s', c);
    SpaceFrames(s, s', pool, c);
  }

  lemma SpaceIsCreated(s: State, s': State, pool: set<nat>, c: nat)
    requires Inv(s, pool) && c in s.free && Cloned(s.mem, s'.mem, s.F, c)
    requires s' == s.(mem := s'.mem, F := AddRoot(s.F, c), free := s.free - {c})
    ensures Inv(s', pool) && SpaceCreated(s, s', c)
  {
    hide WalkFrom, Valid, Cloned;
    SpaceKeepsBase(s, s', pool, c);
    ValidGives(s.mem, s.F);
    RegionsSurvive(s, s');
  }

  lemma RegionsSurvive(s: State, s': State)
    requires Regions(s) && IsRoot(s.F, s.F.kroot) && s'.F.kroot == s.F.kroot
    requires s'.next == s.next && s'.regions == s.regions && UseGrows(s.use, s'.use)
    requires forall n: nat | n < PAGES :: Walk(s', s.F.kroot, n) == Walk(s, s.F.kroot, n)
    ensures Regions(s')
  {
    hide WalkFrom;
    forall v | v in s'.regions ensures RegionOk(s', v) {
      RegionSurvives(s, s', v);
    }
  }

  lemma RegionSurvives(s: State, s': State, v: nat)
    requires Regions(s) && v in s.regions && IsRoot(s.F, s.F.kroot) && s'.F.kroot == s.F.kroot
    requires s'.next == s.next && s'.regions == s.regions && UseGrows(s.use, s'.use)
    requires forall n: nat | n < PAGES :: Walk(s', s.F.kroot, n) == Walk(s, s.F.kroot, n)
    ensures RegionOk(s', v)
  {
    hide WalkFrom;
    assert RegionOk(s, v);
    forall k: nat | k < s.regions[v].pageCount ensures RegionPageOk(s', s.regions[v], k) {
      assert RegionPageOk(s, s.regions[v], k);
      VmPages(v, k);
    }
  }

  // The vmalloc page fault.

  /** The entries `VM_SLOT..i` of `r` have been copied from the reference root. */
  ghost predicate PartlySynced(s: State, s': State, r: nat, i: nat) {
    && s' == s.(mem := s'.mem) && |s'.mem| == |s.mem| && Valid(s'.mem, s.F)
    && (forall q, n: nat | IsRoot(s.F, q) && n < PAGES ::
          Walk(s', q, n) == if q == r && VM_SLOT <= IndexAt(4, n) < i then Walk(s, s.F.kroot, n) else Walk(s, q, n))
    && (forall q, j: nat | IsRoot(s.F, q) && j < SLOTS && Slot(q, j) < |s.mem| && Slot(s.F.kroot, j) < |s.mem| ::
          s'.mem[Slot(q, j)] == s.mem[Slot(if q == r && VM_SLOT <= j < i then s.F.kroot else q, j)])
  }

  const VM_SLOT: nat := 337
  const VM_SLOT_END: nat := 369

  lemma SyncStep(s: State, s1: State, s2: State, r: nat, i: nat)
    requires Valid(s.mem, s.F) && IsRoot(s.F, r) && r != s.F.kroot
    requires PartlySynced(s, s1, r, i) && VM_SLOT <= i < VM_SLOT_END
    requires Slot(r, i) < |s1.mem| && Slot(s.F.kroot, i) < |s1.mem|
    requires s2 == s1.(mem := s1.mem[Slot(r, i) := s1.mem[Slot(s.F.kroot, i)]])
    ensures PartlySynced(s, s2, r, i + 1)
  {
    hide WalkFrom, Valid;
    SyncedIsValid(s1.mem, s2.mem, s.F, r, i);
    forall q, n: nat | IsRoot(s.F, q) && n < PAGES
      ensures Walk(s2, q, n) ==
        if q == r && VM_SLOT <= IndexAt(4, n) < i + 1 then Walk(s, s.F.kroot, n) else Walk(s, q, n)
    {
      SyncedWalk(s1.mem, s2.mem, s.F, r, i, q, n);
    }
    forall q, j: nat | IsRoot(s.F, q) && j < SLOTS && Slot(q, j) < |s.mem| && Slot(s.F.kroot, j) < |s.mem|
      ensures s2.mem[Slot(q, j)] == s.mem[Slot(if q == r && VM_SLOT <= j < i + 1 then s.F.kroot else q, j)]
    {
      SlotsApart(q, j, r, i);
    }
  }

  ghost predicate FaultServed(s: State, s': State, r: nat) {
    PartlySynced(s, s', r, VM_SLOT_END)
  }

  lemma FaultKeeps(s: State, s': State, pool: set<nat>, r: nat)
    requires Inv(s, pool) && IsRoot(s.F, r) && r != s.F.kroot && FaultServed(s, s', r)
    ensures Inv(s', pool)
  {
    hide WalkFrom, Valid, RegionOk, RegionsApart;
    ValidGives(s.mem, s.F);
    RootFrame(s.mem, s.F, s.F.kroot);
    forall q, n: nat | IsRoot(s.F, q) && n < PAGES && !KernelHalf(n) ensures UserPageOk(s', q, n) {
      assert UserPageOk(s, q, n);
    }
    RegionsSurvive(s, s');
  }

  /** After the fault every vmalloc address translates in the process as in the reference table. */
  lemma FaultSyncs(s: State, s': State, r: nat, vaddr: nat)
    requires Valid(s.mem, s.F) && IsRoot(s.F, r) && r != s.F.kroot && FaultServed(s, s', r)
    requires VMALLOC_START <= vaddr < VMALLOC_END
    ensures Translate(s'.mem, r, vaddr) == Translate(s.mem, s.F.kroot, vaddr) == Translate(s'.mem, s.F.kroot, vaddr)
  {
    hide WalkFrom, Valid;
    ValidGives(s.mem, s.F);
    VmPageIsPage(vaddr);
    VmHalf(Page(vaddr));
    assert Walk(s', r, Page(vaddr)) == Walk(s, s.F.kroot, Page(vaddr));
    assert Walk(s', s.F.kroot, Page(vaddr)) == Walk(s, s.F.kroot, Page(vaddr));
  }

  /** A fault changes nothing else: no other space, and no page outside the window. */
  lemma FaultKeepsOthers(s: State, s': State, r: nat, q: nat, n: nat)
    requires IsRoot(s.F, q) && FaultServed(s, s', r) && n < PAGES
    requires q != r || n < 337 * 0x800_0000 || 369 * 0x800_0000 <= n
    ensures Walk(s', q, n) == Walk(s, q, n)
  {
    hide WalkFrom, Valid;
  }

  // Mapping into a user half.

  lemma UserPageNumber(vaddr: nat, k: nat)
    requires vaddr + k * PAGE_SIZE < USER_END
    ensures Page(vaddr + k * PAGE_SIZE) == Page(vaddr) + k && Page(vaddr) + k < PAGES && !KernelHalf(Page(vaddr) + k)
  {
    var p := vaddr / PAGE_SIZE;
    assert (vaddr + k * PAGE_SIZE) / PAGE_SIZE == p + k;
    UserHalf(p);
    UserHalf(p + k);
  }

  lemma UserHalf(p: nat)
    requires p < USER_PAGES
    ensures p % PAGES == p && !KernelHalf(p)
  {}

  lemma UserPageDone(s: State, s1: State, s2: State, pool: set<nat>, r: nat, first: nat, count: nat, d: nat, flags: RegionFlags)
    requires Base(s1, pool) && UserMapped(s, s1, r, first, count, flags) && IsRoot(s1.F, r) && r != s1.F.kroot
    requires first + count < PAGES && !KernelHalf(first + count) && d in s1.free
    requires MapsPage(s1, s2, s1.free - {d}, r, first + count, d, flags)
    requires s2 == s1.(mem := s2.mem, F := s2.F, free := s2.free, use := s1.use[d := Use(Space(r), first + count)])
    ensures Base(s2, pool) && UserMapped(s, s2, r, first, count + 1, flags) && IsRoot(s2.F, r) && s2.F.kroot == s1.F.kroot
  {
    hide WalkFrom, Valid, MapsBlock, PageMapped, TopStable;
    UserPageStep(s1, s2, pool, r, first + count, d, flags);
    UserMappedStep(s, s1, s2, r, first, count, d, flags);
  }

  lemma UserMappedKeepsInv(s: State, s': State, pool: set<nat>, r: nat, first: nat, count: nat, flags: RegionFlags)
    requires Inv(s, pool) && Base(s', pool) && UserMapped(s, s', r, first, count, flags) && r != s.F.kroot
    ensures Inv(s', pool)
  {
    hide WalkFrom, Valid, TopStable, UserPages, Owned;
    ValidGives(s.mem, s.F);
    RegionsSurvive(s, s');
  }

  /** The pages `map_in_userspace` maps are counted from the page of `vaddr`, so they cover the
      requested bytes exactly when the offset in the first page and the rest of the size fit one page. */
  lemma CoversRequest(vaddr: nat, size: nat)
    requires size > 0 && vaddr + (size / PAGE_SIZE + 1) * PAGE_SIZE <= USER_END
    ensures (forall a: nat | vaddr <= a < vaddr + size ::
               Page(vaddr) <= a / PAGE_SIZE < Page(vaddr) + (size / PAGE_SIZE + 1)) <==>
            vaddr % PAGE_SIZE + size % PAGE_SIZE <= PAGE_SIZE
  {
    UserHalf(vaddr / PAGE_SIZE);
    var last := vaddr + size - 1;
    var q, r := size / PAGE_SIZE, size % PAGE_SIZE;
    var p, o := vaddr / PAGE_SIZE, vaddr % PAGE_SIZE;
    assert last == (p + q) * PAGE_SIZE + (o + r - 1);
    assert last / PAGE_SIZE <= p + q <==> o + r <= PAGE_SIZE;
  }

  /** Two bytes across a page boundary are a request that is not covered. */
  lemma UncoveredExample()
    ensures var vaddr, size, a := 0xfff, 2, 0x1000;
      vaddr <= a < vaddr + size && !(Page(vaddr) <= a / PAGE_SIZE < Page(vaddr) + (size / PAGE_SIZE + 1))
  {
    assert Page(0xfff) == 0;
  }

  lemma UserRange(vaddr: nat, count: nat)
    requires count > 0 && vaddr + count * PAGE_SIZE <= USER_END
    ensures Page(vaddr) + count <= USER_PAGES
  {
    UserHalf(vaddr / PAGE_SIZE);
  }

  lemma KernelPageNumber(n: nat)
    requires n < PAGES
    ensures KernelHalf(n) <==> USER_PAGES <= n
  {}
}
