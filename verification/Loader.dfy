/** What the boot loader's page table means (uefi-loader/src/main.rs): the map from virtual pages
    to frames that its entries make up, how many tables that takes, and where the kernel image
    comes to lie. */
module LoaderModels {
  import opened Wrappers
  import opened Entries
  import opened Walks
  import opened Forests
  import opened Paths
  import opened PageTables
  import opened Spaces
  import opened Elfs
  import opened ByteViews

  const STACK_SIZE: nat := 0x20_0000
  const STACK_PAGE_COUNT: nat := 512
  const IDENTITY_SIZE: nat := 0x100_0000

  /** Every page of the loader is present and writable, for the kernel only. */
  const LOADER_FLAGS: EntryFlags := EntryFlags(true, true, false, false, false)

  function LoaderWalk(M: map<nat, nat>, n: nat): Option<Mapping> {
    if n in M then Some(Mapping(M[n], 1, true, false, false)) else None
  }

  ghost predicate MapsAs(mem: seq<Word>, root: nat, M: map<nat, nat>) {
    && (forall n | n in M :: n < PAGES)
    && forall n: nat | n < PAGES :: WalkPage(mem, root, n) == LoaderWalk(M, n)
  }

  ghost predicate ServesSome(F: Forest, g: nat, M: map<nat, nat>)
    requires g in F.nodes
  {
    1 <= F.nodes[g].level <= 4 && exists n :: n in M && Serves(F, g, n)
  }

  /** No table is there in vain. */
  ghost predicate AllNeeded(F: Forest, M: map<nat, nat>) {
    forall g | g in F.nodes && F.nodes[g].level < 4 :: ServesSome(F, g, M)
  }

  /** The tables of the forest are one tree that maps `M`; `free` frames may become tables. */
  ghost predicate TreeMaps(mem: seq<Word>, F: Forest, free: set<nat>, M: map<nat, nat>) {
    && Valid(mem, F) && !F.user && OneRoot(F) && FramesFit(mem, F, free)
    && MapsAs(mem, F.kroot, M) && AllNeeded(F, M)
  }

  lemma StartTree(mem: seq<Word>, c: nat, free: set<nat>)
    requires NothingPresent(mem, c) && c < FRAME_LIMIT && FramesFit(mem, FirstForest(c, false), free)
    ensures TreeMaps(mem, FirstForest(c, false), free, map[])
  {
    hide WalkFrom;
    EmptyRoot(mem, c, false);
  }

  lemma NeededStays(F: Forest, F': Forest, n: nat, M: map<nat, nat>, frame: nat)
    requires AllNeeded(F, M) && Extends(F, F') && NewTablesServe(F, F', n, 1)
    ensures AllNeeded(F', M[n := frame])
  {
    forall g | g in F'.nodes && F'.nodes[g].level < 4 ensures ServesSome(F', g, M[n := frame]) {
      if g in F.nodes {
        assert ServesSome(F, g, M);
        var k :| k in M && Serves(F, g, k);
        assert k in M[n := frame] && Serves(F', g, k);
      } else {
        assert n in M[n := frame];
      }
    }
  }

  lemma PageWalks(mem: seq<Word>, mem': seq<Word>, F: Forest, M: map<nat, nat>, n: nat, frame: nat, m: nat)
    requires MapsAs(mem, F.kroot, M) && !F.user && IsRoot(F, F.kroot) && n < PAGES && m < PAGES
    requires MapsBlock(mem, mem', F, F.kroot, n, 1, frame, LOADER_FLAGS)
    ensures WalkPage(mem', F.kroot, m) == LoaderWalk(M[n := frame], m)
  {
    hide WalkFrom;
  }

  /** Mapping one page updates the map at that page. */
  lemma PageAdded(mem: seq<Word>, F: Forest, free: set<nat>, mem': seq<Word>, F': Forest, free': set<nat>,
                  M: map<nat, nat>, n: nat, frame: nat)
    requires TreeMaps(mem, F, free, M) && n < PAGES && IsRoot(F, F.kroot)
    requires Maintains(mem, F, free, mem', F', free', F.kroot, n, 1)
    requires MapsBlock(mem, mem', F, F.kroot, n, 1, frame, LOADER_FLAGS)
    ensures TreeMaps(mem', F', free', M[n := frame])
  {
    hide WalkFrom, Valid, MapsBlock;
    assert forall r | IsRoot(F', r) :: r in F.nodes && IsRoot(F, r);
    NeededStays(F, F', n, M, frame);
    forall m: nat | m < PAGES ensures WalkPage(mem', F.kroot, m) == LoaderWalk(M[n := frame], m) {
      PageWalks(mem, mem', F, M, n, frame, m);
    }
  }

  // Counting tables.

  /** The blocks with a page of the set that a table of the given level serves. */
  function BlocksAt(pages: set<nat>, level: nat): set<(nat, nat)>
    requires 1 <= level <= 3
  {
    set n | n in pages :: (level, Block(level + 1, n))
  }

  function TableBlocks(pages: set<nat>): set<(nat, nat)> {
    BlocksAt(pages, 1) + BlocksAt(pages, 2) + BlocksAt(pages, 3)
  }

  lemma {:induction false} ImageSize(f: map<nat, (nat, nat)>)
    requires forall x, y | x in f && y in f && f[x] == f[y] :: x == y
    ensures |f| == |f.Values|
    decreases |f|
  {
    if |f| > 0 {
      var x :| x in f;
      var g := f - {x};
      ImageSize(g);
      forall v | v in f.Values ensures v in g.Values + {f[x]} {
        var y :| y in f && f[y] == v;
        if y != x { assert y in g && g[y] == v; }
      }
      assert f.Values == g.Values + {f[x]} && f[x] !in g.Values;
      assert |g| == |f| - 1;
    }
  }

  lemma TableOfBlock(mem: seq<Word>, F: Forest, free: set<nat>, M: map<nat, nat>, n: nat, l: nat) returns (g: nat)
    requires TreeMaps(mem, F, free, M) && n in M && 1 <= l <= 3
    ensures g in F.nodes && g != F.kroot && F.nodes[g].level == l && F.nodes[g].prefix == Block(l + 1, n)
  {
    var p := PathFrom(mem, F.kroot, 4, n);
    PathIsChain(mem, F, F.kroot, n);
    ChainLeafLevel(mem, F, F.kroot, n, p);
    assert Link(mem, F, F.kroot, n, p, 4 - l);
    g := p[4 - l];
  }

  lemma BlockOfTable(mem: seq<Word>, F: Forest, free: set<nat>, M: map<nat, nat>, g: nat)
    requires TreeMaps(mem, F, free, M) && g in F.nodes && g != F.kroot
    ensures 1 <= F.nodes[g].level <= 3 && (F.nodes[g].level, F.nodes[g].prefix) in TableBlocks(M.Keys)
  {
    assert FrameOk(mem, F, g);
    assert !IsRoot(F, g) && ServesSome(F, g, M);
    var n :| n in M && Serves(F, g, n);
    assert n in M.Keys && (F.nodes[g].level, Block(F.nodes[g].level + 1, n)) in BlocksAt(M.Keys, F.nodes[g].level);
  }

  lemma OneTablePerBlock(mem: seq<Word>, F: Forest, free: set<nat>, M: map<nat, nat>, g: nat, h: nat)
    requires TreeMaps(mem, F, free, M) && g in F.nodes && h in F.nodes && g != F.kroot && h != F.kroot
    requires F.nodes[g].level == F.nodes[h].level && F.nodes[g].prefix == F.nodes[h].prefix
    ensures g == h
  {
    assert FrameOk(mem, F, g) && FrameOk(mem, F, h) && !IsRoot(F, g) && ServesSome(F, g, M);
    var n :| n in M && Serves(F, g, n);
    AllVisited(mem, F, g, n);
    AllVisited(mem, F, h, n);
    VisitsOne(mem, F.kroot, 4, n, g, h, F.nodes[g].level);
  }

  /** The tree has its root and exactly one table for each 2M, 1G and 512G block with a mapped page. */
  lemma TablesAreBlocks(mem: seq<Word>, F: Forest, free: set<nat>, M: map<nat, nat>)
    requires TreeMaps(mem, F, free, M)
    ensures |F.nodes| == 1 + |TableBlocks(M.Keys)|
  {
    hide TreeMaps, TableBlocks;
    RootThere(mem, F, free, M);
    var f := map g | g in F.nodes && g != F.kroot :: (F.nodes[g].level, F.nodes[g].prefix);
    forall g, h | g in f && h in f && f[g] == f[h] ensures g == h {
      OneTablePerBlock(mem, F, free, M, g, h);
    }
    ImageSize(f);
    assert F.nodes.Keys == f.Keys + {F.kroot};
    forall b ensures b in f.Values <==> b in TableBlocks(M.Keys) {
      if b in f.Values {
        var g :| g in f && f[g] == b;
        BlockOfTable(mem, F, free, M, g);
      }
      if b in TableBlocks(M.Keys) {
        var n := PageOfBlock(M.Keys, b);
        var g := TableOfBlock(mem, F, free, M, n, b.0);
        assert f[g] == b;
      }
    }
    assert f.Values == TableBlocks(M.Keys);
    assert |F.nodes| == |F.nodes.Keys| && |f| == |f.Keys|;
  }

  lemma RootThere(mem: seq<Word>, F: Forest, free: set<nat>, M: map<nat, nat>)
    requires TreeMaps(mem, F, free, M)
    ensures F.kroot in F.nodes && IsRoot(F, F.kroot)
  {}

  lemma PageOfBlock(pages: set<nat>, b: (nat, nat)) returns (n: nat)
    requires b in TableBlocks(pages)
    ensures n in pages && 1 <= b.0 <= 3 && b.1 == Block(b.0 + 1, n)
  {
    assert 1 <= b.0 <= 3 && b in BlocksAt(pages, b.0);
    n :| n in pages && b.1 == Block(b.0 + 1, n);
  }

  // Memory outside the tables.

  ghost predicate SameTables(mem: seq<Word>, mem': seq<Word>, F: Forest) {
    |mem'| == |mem| && forall s: nat | s < |mem| && s / SLOTS in F.nodes :: mem'[s] == mem[s]
  }

  lemma TablesDecideValid(mem: seq<Word>, mem': seq<Word>, F: Forest)
    requires Valid(mem, F) && SameTables(mem, mem', F)
    ensures Valid(mem', F)
    ensures forall f, i: nat | f in F.nodes && i < SLOTS :: Slot(f, i) < |mem| && mem'[Slot(f, i)] == mem[Slot(f, i)]
  {
    forall f, i: nat | f in F.nodes && i < SLOTS ensures Slot(f, i) < |mem| && mem'[Slot(f, i)] == mem[Slot(f, i)] {
      assert FrameOk(mem, F, f) && Slot(f, i) / SLOTS == f;
    }
    forall f | f in F.nodes ensures FrameOk(mem', F, f) { assert FrameOk(mem, F, f); }
    forall f | f in F.nodes && F.nodes[f].level < 4 ensures ParentOk(mem', F, f) {
      assert ParentOk(mem, F, f);
      assert mem'[Slot(F.nodes[f].parent, F.nodes[f].prefix % SLOTS)] == mem[Slot(F.nodes[f].parent, F.nodes[f].prefix % SLOTS)];
    }
    forall f, i: nat | f in F.nodes && i < SLOTS ensures EntryOk(mem', F, f, i) {
      assert EntryOk(mem, F, f, i);
      EntryKept(mem, F, mem', F, f, i);
    }
  }

  /** Writing elsewhere keeps the tree. */
  lemma TreeStays(mem: seq<Word>, mem': seq<Word>, F: Forest, free: set<nat>, M: map<nat, nat>)
    requires TreeMaps(mem, F, free, M) && SameTables(mem, mem', F)
    ensures TreeMaps(mem', F, free, M)
  {
    hide WalkFrom;
    TablesDecideValid(mem, mem', F);
    assert FrameOk(mem, F, F.kroot);
    forall n: nat | n < PAGES ensures WalkPage(mem', F.kroot, n) == LoaderWalk(M, n) {
      SameTablesSameWalk(mem, mem', F, F.kroot, n);
    }
  }

  /** Every page of a finished table is there for the kernel only, to read and to write. */
  lemma LoaderRights(mem: seq<Word>, F: Forest, free: set<nat>, M: map<nat, nat>, n: nat)
    requires TreeMaps(mem, F, free, M) && n < PAGES
    ensures WalkPage(mem, F.kroot, n).Some? <==> n in M
    ensures n in M ==> var m := WalkPage(mem, F.kroot, n).value; m.write && !m.user && !m.cacheDisable && m.frame == M[n]
  {
    hide WalkFrom, Valid;
  }

  // Runs of pages.

  /** `count` pages from `vaddr` on, mapped to the frames from `paddr` on. */
  function AddPages(M: map<nat, nat>, vaddr: nat, paddr: nat, count: nat): map<nat, nat> {
    if count == 0 then M
    else AddPages(M, vaddr, paddr, count - 1)[Page(vaddr + (count - 1) * PAGE_SIZE) := paddr / PAGE_SIZE + (count - 1)]
  }

  lemma {:induction false} OtherPage(M: map<nat, nat>, vaddr: nat, paddr: nat, count: nat, n: nat)
    requires forall k: nat | k < count :: Page(vaddr + k * PAGE_SIZE) != n
    ensures n in AddPages(M, vaddr, paddr, count) <==> n in M
    ensures n in M ==> AddPages(M, vaddr, paddr, count)[n] == M[n]
  {
    if count > 0 {
      OtherPage(M, vaddr, paddr, count - 1, n);
      assert Page(vaddr + (count - 1) * PAGE_SIZE) != n;
    }
  }

  /** Two page-aligned addresses less than 2^48 apart lie in different pages of the table. */
  lemma PagesDiffer(a: nat, b: nat)
    requires a % PAGE_SIZE == 0 && b % PAGE_SIZE == 0 && a < b < a + PAGES * PAGE_SIZE
    ensures Page(a) != Page(b)
  {
    var p, q := a / PAGE_SIZE, b / PAGE_SIZE;
    assert p < q < p + PAGES;
  }

  lemma {:induction false} AddedPage(M: map<nat, nat>, vaddr: nat, paddr: nat, count: nat, k: nat)
    requires vaddr % PAGE_SIZE == 0 && k < count <= PAGES
    ensures Page(vaddr + k * PAGE_SIZE) in AddPages(M, vaddr, paddr, count)
    ensures AddPages(M, vaddr, paddr, count)[Page(vaddr + k * PAGE_SIZE)] == paddr / PAGE_SIZE + k
    decreases count
  {
    hide Page;
    if k < count - 1 {
      AddedPage(M, vaddr, paddr, count - 1, k);
      PagesDiffer(vaddr + k * PAGE_SIZE, vaddr + (count - 1) * PAGE_SIZE);
    }
  }

  // The kernel image.

  function Last(loads: seq<ProgramHeader>): ProgramHeader
    requires loads != []
  {
    loads[|loads| - 1]
  }

  function Front(loads: seq<ProgramHeader>): seq<ProgramHeader>
    requires loads != []
  {
    loads[..|loads| - 1]
  }

  /** The physical address of segment `k`: behind all pages of the segments before it. */
  function SegmentStart(start: nat, loads: seq<ProgramHeader>, k: nat): nat
    requires k <= |loads|
  {
    start + TotalPages(loads[..k]) * PAGE_SIZE
  }

  function SegmentEnd(h: ProgramHeader): nat {
    h.vaddr + PageCount(h) * PAGE_SIZE
  }

  /** The highest virtual end of a segment. */
  function EndVaddr(loads: seq<ProgramHeader>): nat {
    if loads == [] then 0
    else if SegmentEnd(Last(loads)) > EndVaddr(Front(loads)) then SegmentEnd(Last(loads)) else EndVaddr(Front(loads))
  }

  function ImageMap(start: nat, loads: seq<ProgramHeader>): map<nat, nat> {
    if loads == [] then map[]
    else AddPages(ImageMap(start, Front(loads)), Last(loads).vaddr, SegmentStart(start, loads, |loads| - 1), PageCount(Last(loads)))
  }

  /** The image, the stack above it, and the identity map. */
  function KernelMap(start: nat, loads: seq<ProgramHeader>): map<nat, nat> {
    var image := ImageMap(start, loads);
    var stack := AddPages(image, EndVaddr(loads), SegmentStart(start, loads, |loads|), STACK_PAGE_COUNT);
    AddPages(stack, 0, 0, IDENTITY_SIZE / PAGE_SIZE)
  }

  /** Pages of physical memory mapped to themselves. */
  function OwnPages(M: map<nat, nat>, own: seq<nat>): map<nat, nat> {
    if own == [] then M
    else OwnPages(M, own[..|own| - 1])[Page(own[|own| - 1]) := own[|own| - 1] / PAGE_SIZE]
  }

  /** What `efi_main` maps; `own` are the pages of the trampoline and of the boot information. */
  function FinalMap(start: nat, loads: seq<ProgramHeader>, own: seq<nat>): map<nat, nat> {
    OwnPages(KernelMap(start, loads), own)
  }

  ghost predicate SegmentsApart(a: ProgramHeader, b: ProgramHeader) {
    SegmentEnd(a) <= b.vaddr || SegmentEnd(b) <= a.vaddr
  }

  /** The segments lie with the stack in one stretch of 2^48 addresses from `base` on, above the
      identity map's pages. */
  ghost predicate InRange(loads: seq<ProgramHeader>, base: nat) {
    && base % PAGE_SIZE == 0 && EndVaddr(loads) + STACK_SIZE <= base + PAGES * PAGE_SIZE
    && (forall j | 0 <= j < |loads| :: base + IDENTITY_SIZE <= loads[j].vaddr)
    && base / PAGE_SIZE % PAGES == 0
  }

  predicate PageAligned(loads: seq<ProgramHeader>) {
    forall j | 0 <= j < |loads| :: loads[j].vaddr % PAGE_SIZE == 0
  }

  ghost predicate AllApart(loads: seq<ProgramHeader>) {
    forall j, k | 0 <= j < k < |loads| :: SegmentsApart(loads[j], loads[k])
  }

  ghost predicate Placed(loads: seq<ProgramHeader>, base: nat) {
    InRange(loads, base) && PageAligned(loads) && AllApart(loads)
  }

  /** The page of `addr`, seen from `base`, is outside the image and the stack. */
  ghost predicate ClearOf(loads: seq<ProgramHeader>, base: nat, addr: nat) {
    var a := base + Page(addr) * PAGE_SIZE;
    && (forall j | 0 <= j < |loads| :: a < loads[j].vaddr || SegmentEnd(loads[j]) <= a)
    && (a < EndVaddr(loads) || EndVaddr(loads) + STACK_SIZE <= a)
  }

  ghost predicate OwnClear(loads: seq<ProgramHeader>, base: nat, own: seq<nat>) {
    forall k | 0 <= k < |own| :: ClearOf(loads, base, own[k])
  }

  lemma {:induction false} EndIsHighest(loads: seq<ProgramHeader>, j: nat)
    requires j < |loads|
    ensures SegmentEnd(loads[j]) <= EndVaddr(loads)
    decreases |loads|
  {
    if j < |loads| - 1 {
      EndIsHighest(Front(loads), j);
      assert Front(loads)[j] == loads[j];
    }
  }

  lemma {:induction false} EndIsReached(loads: seq<ProgramHeader>) returns (k: nat)
    requires loads != []
    ensures k < |loads| && SegmentEnd(loads[k]) == EndVaddr(loads)
    decreases |loads|
  {
    k := |loads| - 1;
    if SegmentEnd(Last(loads)) <= EndVaddr(Front(loads)) && Front(loads) != [] {
      k := EndIsReached(Front(loads));
      assert Front(loads)[k] == loads[k];
    }
  }

  lemma PageInSegment(loads: seq<ProgramHeader>, base: nat, j: nat, p: nat)
    requires Placed(loads, base) && j < |loads| && p < PageCount(loads[j])
    ensures var a := loads[j].vaddr + p * PAGE_SIZE;
      && a % PAGE_SIZE == 0 && loads[j].vaddr <= a < SegmentEnd(loads[j])
      && base + IDENTITY_SIZE <= a < base + PAGES * PAGE_SIZE
  {
    hide EndVaddr, PageCount;
    EndIsHighest(loads, j);
  }

  lemma SegmentPagesDiffer(loads: seq<ProgramHeader>, base: nat, j: nat, k: nat, p: nat, q: nat)
    requires Placed(loads, base) && j < |loads| && k < |loads| && j != k
    requires p < PageCount(loads[j]) && q < PageCount(loads[k])
    ensures Page(loads[j].vaddr + p * PAGE_SIZE) != Page(loads[k].vaddr + q * PAGE_SIZE)
  {
    hide Page, EndVaddr, PageCount;
    var a, b := loads[j].vaddr + p * PAGE_SIZE, loads[k].vaddr + q * PAGE_SIZE;
    PageInSegment(loads, base, j, p);
    PageInSegment(loads, base, k, q);
    if j < k { assert SegmentsApart(loads[j], loads[k]); } else { assert SegmentsApart(loads[k], loads[j]); }
    if a < b { PagesDiffer(a, b); } else { PagesDiffer(b, a); }
  }

  lemma FrontPlaced(loads: seq<ProgramHeader>, base: nat)
    requires Placed(loads, base) && loads != []
    ensures Placed(Front(loads), base)
  {}

  lemma SegmentFits(loads: seq<ProgramHeader>, base: nat, j: nat)
    requires Placed(loads, base) && j < |loads|
    ensures PageCount(loads[j]) <= PAGES && loads[j].vaddr % PAGE_SIZE == 0
  {
    EndIsHighest(loads, j);
  }

  /** Where the image map sends a page of a segment. */
  lemma {:induction false} ImagePage(start: nat, loads: seq<ProgramHeader>, base: nat, j: nat, p: nat)
    requires Placed(loads, base) && j < |loads| && p < PageCount(loads[j])
    ensures var n := Page(loads[j].vaddr + p * PAGE_SIZE);
      n in ImageMap(start, loads) && ImageMap(start, loads)[n] == SegmentStart(start, loads, j) / PAGE_SIZE + p
    decreases |loads|
  {
    hide Page, AddPages, Placed, PageCount, SegmentEnd, EndVaddr;
    var k := |loads| - 1;
    var h := loads[k];
    if j == k {
      SegmentFits(loads, base, j);
      AddedPage(ImageMap(start, Front(loads)), h.vaddr, SegmentStart(start, loads, k), PageCount(h), p);
    } else {
      FrontPlaced(loads, base);
      ImagePage(start, Front(loads), base, j, p);
      assert Front(loads)[j] == loads[j] && Front(loads)[..j] == loads[..j];
      forall q: nat | q < PageCount(h) ensures Page(h.vaddr + q * PAGE_SIZE) != Page(loads[j].vaddr + p * PAGE_SIZE) {
        SegmentPagesDiffer(loads, base, k, j, q, p);
      }
      OtherPage(ImageMap(start, Front(loads)), h.vaddr, SegmentStart(start, loads, k), PageCount(h),
                Page(loads[j].vaddr + p * PAGE_SIZE));
    }
  }

  lemma NotIdentity(base: nat, a: nat, k: nat)
    requires base / PAGE_SIZE % PAGES == 0 && base % PAGE_SIZE == 0 && base + IDENTITY_SIZE <= a < base + PAGES * PAGE_SIZE
    requires k < IDENTITY_SIZE / PAGE_SIZE
    ensures Page(k * PAGE_SIZE) != Page(a)
  {
    var q, d := base / PAGE_SIZE / PAGES, (a - base) / PAGE_SIZE;
    assert base == q * PAGES * PAGE_SIZE;
    assert a / PAGE_SIZE == q * PAGES + d && 4096 <= d < PAGES;
    assert Page(a) == d && Page(k * PAGE_SIZE) == k;
  }

  lemma BelowStack(loads: seq<ProgramHeader>, base: nat, j: nat, p: nat)
    requires Placed(loads, base) && j < |loads| && p < PageCount(loads[j])
    ensures var a := loads[j].vaddr + p * PAGE_SIZE;
      a % PAGE_SIZE == 0 && base + IDENTITY_SIZE <= a < EndVaddr(loads) && a < base + PAGES * PAGE_SIZE
    ensures EndVaddr(loads) + STACK_SIZE <= base + PAGES * PAGE_SIZE && EndVaddr(loads) % PAGE_SIZE == 0
    ensures base % PAGE_SIZE == 0 && base / PAGE_SIZE % PAGES == 0
  {
    hide EndVaddr, PageCount;
    PageInSegment(loads, base, j, p);
    EndIsHighest(loads, j);
    EndAligned(loads, base);
  }

  /** Page numbers count from `base`. */
  lemma PageFromBase(base: nat, a: nat)
    requires base / PAGE_SIZE % PAGES == 0 && base % PAGE_SIZE == 0 && base <= a < base + PAGES * PAGE_SIZE
    ensures Page(a) == (a - base) / PAGE_SIZE
  {
    var q, d := base / PAGE_SIZE / PAGES, (a - base) / PAGE_SIZE;
    assert base == q * PAGES * PAGE_SIZE;
    assert a / PAGE_SIZE == q * PAGES + d && d < PAGES;
  }

  lemma {:induction false} NotOwn(M: map<nat, nat>, own: seq<nat>, n: nat)
    requires forall k | 0 <= k < |own| :: Page(own[k]) != n
    ensures n in OwnPages(M, own) <==> n in M
    ensures n in M ==> OwnPages(M, own)[n] == M[n]
    decreases |own|
  {
    hide Page;
    if own != [] { NotOwn(M, own[..|own| - 1], n); }
  }

  lemma KernelImagePage(start: nat, loads: seq<ProgramHeader>, base: nat, j: nat, p: nat)
    requires Placed(loads, base) && j < |loads| && p < PageCount(loads[j])
    ensures var n := Page(loads[j].vaddr + p * PAGE_SIZE);
      n in KernelMap(start, loads) && KernelMap(start, loads)[n] == SegmentStart(start, loads, j) / PAGE_SIZE + p
  {
    hide AddPages, ImageMap, Page, SegmentStart, Placed, EndVaddr, PageCount;
    var a := loads[j].vaddr + p * PAGE_SIZE;
    BelowStack(loads, base, j, p);
    ImagePage(start, loads, base, j, p);
    var image := ImageMap(start, loads);
    forall k: nat | k < STACK_PAGE_COUNT ensures Page(EndVaddr(loads) + k * PAGE_SIZE) != Page(a) {
      PagesDiffer(a, EndVaddr(loads) + k * PAGE_SIZE);
    }
    OtherPage(image, EndVaddr(loads), SegmentStart(start, loads, |loads|), STACK_PAGE_COUNT, Page(a));
    var stack := AddPages(image, EndVaddr(loads), SegmentStart(start, loads, |loads|), STACK_PAGE_COUNT);
    forall k: nat | k < IDENTITY_SIZE / PAGE_SIZE ensures Page(0 + k * PAGE_SIZE) != Page(a) {
      NotIdentity(base, a, k);
    }
    OtherPage(stack, 0, 0, IDENTITY_SIZE / PAGE_SIZE, Page(a));
  }

  lemma FinalImagePage(start: nat, loads: seq<ProgramHeader>, own: seq<nat>, base: nat, j: nat, p: nat)
    requires Placed(loads, base) && OwnClear(loads, base, own) && j < |loads| && p < PageCount(loads[j])
    ensures var n := Page(loads[j].vaddr + p * PAGE_SIZE);
      n in FinalMap(start, loads, own) && FinalMap(start, loads, own)[n] == SegmentStart(start, loads, j) / PAGE_SIZE + p
  {
    hide KernelMap, Page, SegmentStart, EndVaddr, PageCount;
    var a := loads[j].vaddr + p * PAGE_SIZE;
    PageInSegment(loads, base, j, p);
    PageFromBase(base, a);
    forall k | 0 <= k < |own| ensures Page(own[k]) != Page(a) { assert ClearOf(loads, base, own[k]); }
    KernelImagePage(start, loads, base, j, p);
    NotOwn(KernelMap(start, loads), own, Page(a));
  }

  lemma {:induction false} EndAligned(loads: seq<ProgramHeader>, base: nat)
    requires Placed(loads, base)
    ensures EndVaddr(loads) % PAGE_SIZE == 0 && (loads != [] ==> base + IDENTITY_SIZE <= EndVaddr(loads))
    decreases |loads|
  {
    hide SegmentEnd;
    if loads != [] {
      FrontPlaced(loads, base);
      EndAligned(Front(loads), base);
      SegmentEndAligned(Last(loads));
    }
  }

  /** A segment ends where its last page does. */
  lemma SegmentEndIs(h: ProgramHeader)
    ensures h.vaddr + h.memorySize <= SegmentEnd(h) < h.vaddr + h.memorySize + PAGE_SIZE
    ensures (SegmentEnd(h) - h.vaddr) % PAGE_SIZE == 0
  {}

  lemma SegmentEndAligned(h: ProgramHeader)
    requires h.vaddr % PAGE_SIZE == 0
    ensures SegmentEnd(h) % PAGE_SIZE == 0 && h.vaddr <= SegmentEnd(h)
  {}

  /** The bytes of the segments are in place. */
  ghost predicate ImageAt(words: seq<Word>, elf: Elf, start: nat, loads: seq<ProgramHeader>) {
    forall j, i: nat | 0 <= j < |loads| && i < PageCount(loads[j]) * PAGE_SIZE ::
      ByteAt(words, SegmentStart(start, loads, j) + i) == SegmentByte(elf, loads[j], i)
  }

  lemma AddressInPage(vaddr: nat, i: nat)
    requires vaddr % PAGE_SIZE == 0
    ensures Page(vaddr + i) == Page(vaddr + i / PAGE_SIZE * PAGE_SIZE) && (vaddr + i) % PAGE_SIZE == i % PAGE_SIZE
  {
    assert (vaddr + i) / PAGE_SIZE == vaddr / PAGE_SIZE + i / PAGE_SIZE;
  }

  lemma PageTranslates(words: seq<Word>, F: Forest, free: set<nat>, M: map<nat, nat>, vaddr: nat, at: nat, i: nat)
    requires TreeMaps(words, F, free, M) && vaddr % PAGE_SIZE == 0 && at % PAGE_SIZE == 0
    requires var n := Page(vaddr + i / PAGE_SIZE * PAGE_SIZE); n in M && M[n] == at / PAGE_SIZE + i / PAGE_SIZE
    ensures Translate(words, F.kroot, vaddr + i) == Some(at + i)
  {
    hide WalkFrom, Valid, Page;
    AddressInPage(vaddr, i);
    assert (at / PAGE_SIZE + i / PAGE_SIZE) * PAGE_SIZE + i % PAGE_SIZE == at + i;
  }

  lemma StartAligned(start: nat, loads: seq<ProgramHeader>, k: nat)
    requires start % PAGE_SIZE == 0 && k <= |loads|
    ensures SegmentStart(start, loads, k) % PAGE_SIZE == 0
  {}

  /** The loaded program image: read through the finished table, byte `i` of a segment is byte `i`
      of its part of the file, and zero from the file size up to the memory size. */
  lemma LoadedImage(words: seq<Word>, F: Forest, free: set<nat>, elf: Elf, start: nat, loads: seq<ProgramHeader>,
                    own: seq<nat>, base: nat, j: nat, i: nat)
    requires TreeMaps(words, F, free, FinalMap(start, loads, own)) && ImageAt(words, elf, start, loads)
    requires Placed(loads, base) && OwnClear(loads, base, own) && start % PAGE_SIZE == 0
    requires j < |loads| && i < loads[j].memorySize
    ensures Translate(words, F.kroot, loads[j].vaddr + i).Some?
    ensures ByteAt(words, Translate(words, F.kroot, loads[j].vaddr + i).value) ==
      if i < loads[j].fileSize && loads[j].offset + i < |elf.bytes| then elf.bytes[loads[j].offset + i] else 0
  {
    hide TreeMaps, FinalMap, ByteAt, SegmentStart, Translate, Page;
    SegmentTranslates(words, F, free, start, loads, own, base, j, i);
    assert ByteAt(words, SegmentStart(start, loads, j) + i) == SegmentByte(elf, loads[j], i);
  }

  /** These addresses are read at the addresses from `at` on. */
  ghost predicate InPlace(words: seq<Word>, root: nat, vaddr: nat, at: nat, length: nat) {
    forall a: nat | vaddr <= a < vaddr + length :: Translate(words, root, a) == Some(at + (a - vaddr))
  }

  lemma InPlaceIsAligned(words: seq<Word>, root: nat, vaddr: nat, at: nat, length: nat)
    requires InPlace(words, root, vaddr, at, length) && length > 0 && at % PAGE_SIZE == 0
    ensures vaddr % PAGE_SIZE == 0
  {
    hide WalkFrom, Page;
    assert Translate(words, root, vaddr) == Some(at);
  }

  lemma SegmentTranslates(mem: seq<Word>, F: Forest, free: set<nat>, start: nat, loads: seq<ProgramHeader>, own: seq<nat>,
                          base: nat, j: nat, i: nat)
    requires TreeMaps(mem, F, free, FinalMap(start, loads, own)) && start % PAGE_SIZE == 0
    requires Placed(loads, base) && OwnClear(loads, base, own) && j < |loads| && i < PageCount(loads[j]) * PAGE_SIZE
    ensures Translate(mem, F.kroot, loads[j].vaddr + i) == Some(SegmentStart(start, loads, j) + i)
  {
    hide TreeMaps, FinalMap, SegmentStart, Translate, Page, PageCount, InRange, AllApart;
    FinalImagePage(start, loads, own, base, j, i / PAGE_SIZE);
    StartAligned(start, loads, j);
    PageTranslates(mem, F, free, FinalMap(start, loads, own), loads[j].vaddr, SegmentStart(start, loads, j), i);
  }

  /** In memory the segments come in their order. */
  lemma {:induction false} SegmentsInOrder(start: nat, loads: seq<ProgramHeader>, j: nat, k: nat)
    requires j < k <= |loads|
    ensures SegmentStart(start, loads, j) + PageCount(loads[j]) * PAGE_SIZE <= SegmentStart(start, loads, k)
    decreases k
  {
    TotalSplit(loads, k - 1);
    if j < k - 1 { SegmentsInOrder(start, loads, j, k - 1); }
  }

  /** An address that two segments share cannot be in two places. */
  lemma InPlaceAreApart(words: seq<Word>, root: nat, a: ProgramHeader, b: ProgramHeader, at: nat, bt: nat)
    requires a.vaddr % PAGE_SIZE == 0 && b.vaddr % PAGE_SIZE == 0 && at + PageCount(a) * PAGE_SIZE <= bt
    requires InPlace(words, root, a.vaddr, at, a.memorySize) && InPlace(words, root, b.vaddr, bt, b.memorySize)
    requires a.memorySize > 0 && b.memorySize > 0
    ensures SegmentsApart(a, b)
  {
    hide Translate, InPlace;
    var x := if a.vaddr < b.vaddr then b.vaddr else a.vaddr;
    if !SegmentsApart(a, b) {
      LastPage(a, x);
      LastPage(b, x);
      PlaceOf(words, root, a.vaddr, at, a.memorySize, x);
      PlaceOf(words, root, b.vaddr, bt, b.memorySize, x);
    }
  }

  lemma PlaceOf(words: seq<Word>, root: nat, vaddr: nat, at: nat, length: nat, x: nat)
    requires InPlace(words, root, vaddr, at, length) && vaddr <= x < vaddr + length
    ensures Translate(words, root, x) == Some(at + (x - vaddr))
  {}

  lemma LastPage(h: ProgramHeader, x: nat)
    requires h.vaddr % PAGE_SIZE == 0 && x % PAGE_SIZE == 0 && h.vaddr <= x < SegmentEnd(h)
    ensures x < h.vaddr + h.memorySize
  {}

  ghost predicate ImageInPlace(words: seq<Word>, root: nat, start: nat, loads: seq<ProgramHeader>) {
    forall j: nat | j < |loads| :: InPlace(words, root, loads[j].vaddr, SegmentStart(start, loads, j), loads[j].memorySize)
  }

  /** The finished table reads every byte of the image where the loader put it if and only if every
      segment starts at a page and no two share one; the loader checks neither. */
  lemma ImageInPlaceIff(words: seq<Word>, F: Forest, free: set<nat>, start: nat, loads: seq<ProgramHeader>, own: seq<nat>,
                        base: nat)
    requires TreeMaps(words, F, free, FinalMap(start, loads, own)) && start % PAGE_SIZE == 0
    requires InRange(loads, base) && OwnClear(loads, base, own) && forall j | 0 <= j < |loads| :: loads[j].memorySize > 0
    ensures ImageInPlace(words, F.kroot, start, loads) <==> PageAligned(loads) && AllApart(loads)
  {
    hide TreeMaps, FinalMap, SegmentStart, Translate, InPlace, InRange, OwnClear, SegmentsApart;
    if ImageInPlace(words, F.kroot, start, loads) {
      InPlaceIsPlaced(words, F.kroot, start, loads);
    } else if PageAligned(loads) && AllApart(loads) {
      forall j: nat | j < |loads|
        ensures InPlace(words, F.kroot, loads[j].vaddr, SegmentStart(start, loads, j), loads[j].memorySize)
      {
        PlacedIsInPlace(words, F, free, start, loads, own, base, j);
      }
      assert false;
    }
  }

  lemma InPlaceIsPlaced(words: seq<Word>, root: nat, start: nat, loads: seq<ProgramHeader>)
    requires ImageInPlace(words, root, start, loads) && start % PAGE_SIZE == 0
    requires forall j | 0 <= j < |loads| :: loads[j].memorySize > 0
    ensures PageAligned(loads) && AllApart(loads)
  {
    hide SegmentStart, InPlace, SegmentsApart;
    forall j: nat | j < |loads| ensures loads[j].vaddr % PAGE_SIZE == 0 {
      StartAligned(start, loads, j);
      InPlaceIsAligned(words, root, loads[j].vaddr, SegmentStart(start, loads, j), loads[j].memorySize);
    }
    forall j: nat, k: nat | j < k < |loads| ensures SegmentsApart(loads[j], loads[k]) {
      SegmentsInOrder(start, loads, j, k);
      InPlaceAreApart(words, root, loads[j], loads[k], SegmentStart(start, loads, j), SegmentStart(start, loads, k));
    }
  }

  lemma PlacedIsInPlace(words: seq<Word>, F: Forest, free: set<nat>, start: nat, loads: seq<ProgramHeader>, own: seq<nat>,
                        base: nat, j: nat)
    requires TreeMaps(words, F, free, FinalMap(start, loads, own)) && start % PAGE_SIZE == 0
    requires Placed(loads, base) && OwnClear(loads, base, own) && j < |loads|
    ensures InPlace(words, F.kroot, loads[j].vaddr, SegmentStart(start, loads, j), loads[j].memorySize)
  {
    hide TreeMaps, FinalMap, SegmentStart, Translate, Placed, OwnClear;
    var vaddr := loads[j].vaddr;
    forall a: nat | vaddr <= a < vaddr + loads[j].memorySize
      ensures Translate(words, F.kroot, a) == Some(SegmentStart(start, loads, j) + (a - vaddr))
    {
      SegmentTranslates(words, F, free, start, loads, own, base, j, a - vaddr);
    }
  }

  // The stack.

  lemma EndAbove(loads: seq<ProgramHeader>, base: nat)
    requires InRange(loads, base) && loads != []
    ensures base + IDENTITY_SIZE <= EndVaddr(loads)
  {
    hide EndVaddr, PageCount;
    EndIsHighest(loads, 0);
  }

  lemma KernelStackPage(start: nat, loads: seq<ProgramHeader>, base: nat, p: nat)
    requires InRange(loads, base) && loads != [] && p < STACK_PAGE_COUNT && EndVaddr(loads) % PAGE_SIZE == 0
    ensures var n := Page(EndVaddr(loads) + p * PAGE_SIZE);
      n in KernelMap(start, loads) && KernelMap(start, loads)[n] == SegmentStart(start, loads, |loads|) / PAGE_SIZE + p
  {
    hide AddPages, ImageMap, Page, SegmentStart, EndVaddr;
    var end, at := EndVaddr(loads), SegmentStart(start, loads, |loads|);
    EndAbove(loads, base);
    var image := ImageMap(start, loads);
    AddedPage(image, end, at, STACK_PAGE_COUNT, p);
    forall k: nat | k < IDENTITY_SIZE / PAGE_SIZE ensures Page(0 + k * PAGE_SIZE) != Page(end + p * PAGE_SIZE) {
      NotIdentity(base, end + p * PAGE_SIZE, k);
    }
    OtherPage(AddPages(image, end, at, STACK_PAGE_COUNT), 0, 0, IDENTITY_SIZE / PAGE_SIZE, Page(end + p * PAGE_SIZE));
  }

  lemma FinalStackPage(start: nat, loads: seq<ProgramHeader>, own: seq<nat>, base: nat, p: nat)
    requires InRange(loads, base) && loads != [] && p < STACK_PAGE_COUNT && EndVaddr(loads) % PAGE_SIZE == 0
    requires OwnClear(loads, base, own)
    ensures var n := Page(EndVaddr(loads) + p * PAGE_SIZE);
      && n in FinalMap(start, loads, own)
      && FinalMap(start, loads, own)[n] == SegmentStart(start, loads, |loads|) / PAGE_SIZE + p
  {
    hide KernelMap, Page, SegmentStart, EndVaddr, SegmentEnd;
    var a := EndVaddr(loads) + p * PAGE_SIZE;
    EndAbove(loads, base);
    PageFromBase(base, a);
    forall k | 0 <= k < |own| ensures Page(own[k]) != Page(a) { assert ClearOf(loads, base, own[k]); }
    KernelStackPage(start, loads, base, p);
    NotOwn(KernelMap(start, loads), own, Page(a));
  }

  /** The stack, above the highest segment, is read at the pages behind the last one if and only if
      the highest end of a segment is page-aligned. */
  lemma StackInPlaceIff(words: seq<Word>, F: Forest, free: set<nat>, start: nat, loads: seq<ProgramHeader>, own: seq<nat>,
                        base: nat)
    requires TreeMaps(words, F, free, FinalMap(start, loads, own)) && start % PAGE_SIZE == 0
    requires InRange(loads, base) && OwnClear(loads, base, own) && loads != []
    ensures InPlace(words, F.kroot, EndVaddr(loads), SegmentStart(start, loads, |loads|), 0x20_0000) <==>
            EndVaddr(loads) % PAGE_SIZE == 0
    ensures forall j: nat | j < |loads| :: SegmentEnd(loads[j]) <= EndVaddr(loads)
    ensures exists j: nat :: j < |loads| && SegmentEnd(loads[j]) == EndVaddr(loads)
  {
    hide TreeMaps, FinalMap, SegmentStart, Translate, Page, InRange, EndVaddr, OwnClear, SegmentEnd;
    var end, at := EndVaddr(loads), SegmentStart(start, loads, |loads|);
    var highest := EndIsReached(loads);
    StartAligned(start, loads, |loads|);
    if end % PAGE_SIZE == 0 {
      forall a: nat | end <= a < end + STACK_SIZE ensures Translate(words, F.kroot, a) == Some(at + (a - end)) {
        FinalStackPage(start, loads, own, base, (a - end) / PAGE_SIZE);
        PageTranslates(words, F, free, FinalMap(start, loads, own), end, at, a - end);
      }
    } else if InPlace(words, F.kroot, end, at, STACK_SIZE) {
      InPlaceIsAligned(words, F.kroot, end, at, STACK_SIZE);
      assert false;
    }
    forall j: nat | j < |loads| ensures SegmentEnd(loads[j]) <= EndVaddr(loads) { EndIsHighest(loads, j); }
  }

  lemma {:induction false} OwnStays(M: map<nat, nat>, own: seq<nat>, n: nat)
    requires forall k | 0 <= k < |own| :: own[k] < PAGES * PAGE_SIZE
    requires (n in M && M[n] == n) || exists k :: 0 <= k < |own| && own[k] / PAGE_SIZE == n
    ensures n in OwnPages(M, own) && OwnPages(M, own)[n] == n
    decreases |own|
  {
    if own != [] {
      var last := own[|own| - 1];
      assert Page(last) == last / PAGE_SIZE;
      if last / PAGE_SIZE != n {
        if !(n in M && M[n] == n) {
          var k :| 0 <= k < |own| && own[k] / PAGE_SIZE == n;
          assert own[..|own| - 1][k] == own[k];
        }
        OwnStays(M, own[..|own| - 1], n);
      }
    }
  }

  lemma IdentityPage(start: nat, loads: seq<ProgramHeader>, n: nat)
    requires n < IDENTITY_SIZE / PAGE_SIZE
    ensures n in KernelMap(start, loads) && KernelMap(start, loads)[n] == n
  {
    hide AddPages, ImageMap, SegmentStart, EndVaddr;
    var stack := AddPages(ImageMap(start, loads), EndVaddr(loads), SegmentStart(start, loads, |loads|), STACK_PAGE_COUNT);
    AddedPage(stack, 0, 0, IDENTITY_SIZE / PAGE_SIZE, n);
    assert Page(0 + n * PAGE_SIZE) == n;
  }

  /** The first 16M, the trampoline and the boot information are read at their own addresses. */
  lemma OwnPlace(words: seq<Word>, F: Forest, free: set<nat>, start: nat, loads: seq<ProgramHeader>, own: seq<nat>, a: nat)
    requires TreeMaps(words, F, free, FinalMap(start, loads, own))
    requires forall k | 0 <= k < |own| :: own[k] < PAGES * PAGE_SIZE
    requires a < 0x100_0000 || exists k :: 0 <= k < |own| && own[k] / PAGE_SIZE == a / PAGE_SIZE
    ensures Translate(words, F.kroot, a) == Some(a)
  {
    hide WalkFrom, Valid, KernelMap, OwnPages;
    if a < IDENTITY_SIZE { IdentityPage(start, loads, a / PAGE_SIZE); }
    OwnStays(KernelMap(start, loads), own, a / PAGE_SIZE);
    assert Page(a) == a / PAGE_SIZE;
  }

  lemma TotalSplit(loads: seq<ProgramHeader>, k: nat)
    requires k < |loads|
    ensures TotalPages(loads[..k + 1]) == TotalPages(loads[..k]) + PageCount(loads[k])
  {
    assert loads[..k + 1][..k] == loads[..k];
  }

  /** The segments and the stack fill the pages that were counted for them without gap or overlap. */
  lemma SegmentsTile(start: nat, loads: seq<ProgramHeader>)
    ensures SegmentStart(start, loads, 0) == start
    ensures forall k: nat | k < |loads| ::
      SegmentStart(start, loads, k + 1) == SegmentStart(start, loads, k) + PageCount(loads[k]) * PAGE_SIZE
    ensures SegmentStart(start, loads, |loads|) + STACK_SIZE == start + (TotalPages(loads) + STACK_PAGE_COUNT) * PAGE_SIZE
  {
    forall k: nat | k < |loads|
      ensures SegmentStart(start, loads, k + 1) == SegmentStart(start, loads, k) + PageCount(loads[k]) * PAGE_SIZE
    {
      TotalSplit(loads, k);
    }
    assert loads[..|loads|] == loads;
  }
}
