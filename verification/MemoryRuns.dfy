/** Whole runs of the memory manager over several address spaces. */
module MemoryRuns {
  import opened Wrappers
  import opened Entries
  import opened Walks
  import opened Forests
  import opened Paths
  import opened PageTables
  import opened MemoryModel

  datatype Op =
    | NewSpace(root: nat)
    | MapUser(root: nat, first: nat, count: nat, flags: RegionFlags)
    | MapKernel(region: VMRegion)
    | Fault(root: nat)

  ghost predicate Step(s: State, op: Op, s': State, pool: set<nat>) {
    && Inv(s, pool) && Inv(s', pool)
    && match op
       case NewSpace(c) => SpaceCreated(s, s', c)
       case MapUser(r, first, count, flags) =>
         IsRoot(s.F, r) && r != s.F.kroot && first + count <= USER_PAGES && UserMapped(s, s', r, first, count, flags)
       case MapKernel(region) =>
         && NextRegion(s, region) && KernelMapped(s, s'.(next := s.next, regions := s.regions), region, region.pageCount)
         && s'.next == region.End() && s'.regions == s.regions[region.vaddr := region]
       case Fault(r) => IsRoot(s.F, r) && r != s.F.kroot && FaultServed(s, s', r)
  }

  ghost predicate Run(states: seq<State>, ops: seq<Op>, pool: set<nat>) {
    && |states| == |ops| + 1 && Inv(states[0], pool)
    && forall i | 0 <= i < |ops| :: Step(states[i], ops[i], states[i + 1], pool)
  }

  lemma RunInv(states: seq<State>, ops: seq<Op>, pool: set<nat>, i: nat)
    requires Run(states, ops, pool) && i <= |ops|
    ensures Inv(states[i], pool)
  {
    hide Inv;
    if i > 0 { assert Step(states[i - 1], ops[i - 1], states[i], pool); }
  }

  lemma StepKeepsRoots(s: State, op: Op, s': State, pool: set<nat>)
    requires Step(s, op, s', pool)
    ensures s'.F.kroot == s.F.kroot && forall r | IsRoot(s.F, r) :: IsRoot(s'.F, r)
  {
    hide WalkFrom, Valid;
  }

  lemma BelowVm(n: nat)
    requires n < PAGES && !KernelHalf(n)
    ensures n < VM_FIRST
  {}

  /** One operation changes the user half of a space only by mapping into that space. */
  lemma StepSeparates(s: State, op: Op, s': State, pool: set<nat>, q: nat, n: nat)
    requires Step(s, op, s', pool) && IsRoot(s.F, q) && n < PAGES && !KernelHalf(n)
    requires !(op.MapUser? && op.root == q && op.first <= n < op.first + op.count)
    ensures Walk(s', q, n) == Walk(s, q, n)
  {
    hide WalkFrom, Valid, TopStable, UserPages, Owned, RegionPageOk, UseAdds, Page;
    if op.MapKernel? {
      RegionPages(s, op.region, 0);
      BelowVm(n);
    }
  }

  /** Address-space separation: over any run, whatever is mapped into other spaces or into the
      kernel, the user half of a space translates as before. */
  lemma {:induction false} Separation(states: seq<State>, ops: seq<Op>, pool: set<nat>, q: nat, n: nat)
    requires Run(states, ops, pool) && IsRoot(states[0].F, q) && n < PAGES && !KernelHalf(n)
    requires forall i | 0 <= i < |ops| :: !(ops[i].MapUser? && ops[i].root == q)
    ensures IsRoot(states[|ops|].F, q)
    ensures Walk(states[|ops|], q, n) == Walk(states[0], q, n)
    decreases |ops|
  {
    hide WalkFrom, Valid, Step;
    if |ops| > 0 {
      var k := |ops| - 1;
      assert Run(states[..k + 1], ops[..k], pool);
      Separation(states[..k + 1], ops[..k], pool, q, n);
      StepKeepsRoots(states[k], ops[k], states[k + 1], pool);
      StepSeparates(states[k], ops[k], states[k + 1], pool, q, n);
    }
  }

  /** The reference table never maps anything in the user half. */
  lemma ReferenceStaysKernelOnly(states: seq<State>, ops: seq<Op>, pool: set<nat>, i: nat, n: nat)
    requires Run(states, ops, pool) && i <= |ops| && n < PAGES && !KernelHalf(n)
    ensures Walk(states[i], states[i].F.kroot, n) == None
  {
    hide WalkFrom, Valid;
    RunInv(states, ops, pool, i);
    ReferenceUserHalf(states[i].mem, states[i].F, n);
  }

  lemma StepKeepsKernel(s: State, op: Op, s': State, pool: set<nat>, n: nat)
    requires Step(s, op, s', pool) && n < PAGES && KernelHalf(n)
    requires Walk(s, s.F.kroot, n).Some? || !(VM_FIRST <= n < VM_END)
    ensures Walk(s', s.F.kroot, n) == Walk(s, s.F.kroot, n)
  {
    hide WalkFrom, Valid, TopStable, UserPages;
    ValidGives(s.mem, s.F);
    if op.MapKernel? {
      RegionPages(s, op.region, 0);
      RegionPages(s, op.region, op.region.pageCount - 1);
    }
  }

  /** What the reference table maps in the kernel half stays mapped the same over any run; outside
      the vmalloc window nothing is ever added either. */
  lemma {:induction false} KernelStable(states: seq<State>, ops: seq<Op>, pool: set<nat>, n: nat)
    requires Run(states, ops, pool) && n < PAGES && KernelHalf(n)
    requires Walk(states[0], states[0].F.kroot, n).Some? || !(VM_FIRST <= n < VM_END)
    ensures states[|ops|].F.kroot == states[0].F.kroot
    ensures Walk(states[|ops|], states[0].F.kroot, n) == Walk(states[0], states[0].F.kroot, n)
    decreases |ops|
  {
    hide WalkFrom, Valid, Step;
    if |ops| > 0 {
      var k := |ops| - 1;
      assert Run(states[..k + 1], ops[..k], pool);
      KernelStable(states[..k + 1], ops[..k], pool, n);
      StepKeepsRoots(states[k], ops[k], states[k + 1], pool);
      StepKeepsKernel(states[k], ops[k], states[k + 1], pool, n);
    }
  }

  lemma StepKeepsTop(s: State, op: Op, s': State, pool: set<nat>, r: nat, n: nat)
    requires Step(s, op, s', pool) && IsRoot(s.F, r) && n < PAGES && KernelHalf(n)
    requires Present(EntryOn(s.mem, r, 4, n))
    ensures Present(EntryOn(s'.mem, r, 4, n))
  {
    hide WalkFrom, Valid, UserPages, Regions, Owned;
    ValidGives(s.mem, s.F);
    RootFrame(s.mem, s.F, r);
    RootFrame(s.mem, s.F, s.F.kroot);
    if op.Fault? && !Present(EntryOn(s.mem, s.F.kroot, 4, n)) {
      AbsentEverywhere(s.mem, s.F, n, r);
    }
  }

  lemma {:induction false} TopPersists(states: seq<State>, ops: seq<Op>, pool: set<nat>, r: nat, n: nat)
    requires Run(states, ops, pool) && IsRoot(states[0].F, r) && n < PAGES && KernelHalf(n)
    requires Present(EntryOn(states[0].mem, r, 4, n))
    ensures IsRoot(states[|ops|].F, r) && Present(EntryOn(states[|ops|].mem, r, 4, n))
    decreases |ops|
  {
    hide WalkFrom, Valid, Step, EntryOn;
    if |ops| > 0 {
      var k := |ops| - 1;
      assert Run(states[..k + 1], ops[..k], pool);
      TopPersists(states[..k + 1], ops[..k], pool, r, n);
      StepKeepsRoots(states[k], ops[k], states[k + 1], pool);
      StepKeepsTop(states[k], ops[k], states[k + 1], pool, r, n);
    }
  }

  lemma FaultFillsTop(s: State, s': State, pool: set<nat>, r: nat, n: nat)
    requires Step(s, Fault(r), s', pool) && VM_FIRST <= n < VM_END
    requires Present(EntryOn(s.mem, s.F.kroot, 4, n))
    ensures Present(EntryOn(s'.mem, r, 4, n))
  {
    hide WalkFrom, Valid, UserPages, Regions, Owned;
    VmHalf(n);
    ValidGives(s.mem, s.F);
    RootFrame(s.mem, s.F, r);
    RootFrame(s.mem, s.F, s.F.kroot);
  }

  /** After one vmalloc fault in `r`, every later region whose top-level entry existed by then is
      visible in `r` without another fault: in all later states both tables translate its pages alike. */
  lemma LaterRegionsVisible(states: seq<State>, ops: seq<Op>, pool: set<nat>, r: nat, n: nat)
    requires Run(states, ops, pool) && |ops| > 0 && ops[0] == Fault(r) && VM_FIRST <= n < VM_END
    requires Present(EntryOn(states[0].mem, states[0].F.kroot, 4, n))
    ensures Walk(states[|ops|], r, n) == Walk(states[|ops|], states[|ops|].F.kroot, n)
  {
    hide WalkFrom, Valid, EntryOn, FaultServed;
    VmHalf(n);
    var m := |ops|;
    assert Step(states[0], ops[0], states[1], pool);
    FaultFillsTop(states[0], states[1], pool, r, n);
    StepKeepsRoots(states[0], ops[0], states[1], pool);
    forall i | 0 <= i < m - 1 ensures Step(states[1..][i], ops[1..][i], states[1..][i + 1], pool) {
      assert Step(states[i + 1], ops[i + 1], states[i + 2], pool);
    }
    TopPersists(states[1..], ops[1..], pool, r, n);
    assert Step(states[m - 1], ops[m - 1], states[m], pool);
    KernelHalfView(states[m].mem, states[m].F, r, n);
  }

  /** No data frame serves two pages: in every state two different pages of user halves have
      different frames, none of them free and none holding a table. */
  lemma NoSharedFrames(s: State, pool: set<nat>, r: nat, n: nat, q: nat, m: nat)
    requires Inv(s, pool) && IsRoot(s.F, r) && IsRoot(s.F, q) && n < PAGES && m < PAGES
    requires !KernelHalf(n) && !KernelHalf(m) && Walk(s, r, n).Some? && Walk(s, q, m).Some?
    ensures Walk(s, r, n).value.frame == Walk(s, q, m).value.frame ==> r == q && n == m
    ensures Walk(s, r, n).value.frame !in s.free && Walk(s, r, n).value.frame !in s.F.nodes
  {
    hide WalkFrom, Valid;
    assert UserPageOk(s, r, n) && UserPageOk(s, q, m);
  }

  /** The kernel's anonymous pages have their frames to themselves as well. */
  lemma RegionFramesPrivate(s: State, pool: set<nat>, v: nat, k: nat, r: nat, n: nat)
    requires Inv(s, pool) && v in s.regions && s.regions[v].paddr.None? && k < s.regions[v].pageCount
    requires IsRoot(s.F, r) && n < PAGES && !KernelHalf(n) && Walk(s, r, n).Some?
    ensures Walk(s, s.F.kroot, Page(v) + k).Some?
    ensures var f := Walk(s, s.F.kroot, Page(v) + k).value.frame;
      f !in s.free && f !in s.F.nodes && f != Walk(s, r, n).value.frame
  {
    hide WalkFrom, Valid;
    assert RegionOk(s, v) && RegionPageOk(s, s.regions[v], k) && UserPageOk(s, r, n);
  }

  lemma RegionFramesDiffer(s: State, pool: set<nat>, v: nat, k: nat, w: nat, j: nat)
    requires Inv(s, pool) && v in s.regions && s.regions[v].paddr.None? && k < s.regions[v].pageCount
    requires w in s.regions && s.regions[w].paddr.None? && j < s.regions[w].pageCount
    requires v + k * PAGE_SIZE != w + j * PAGE_SIZE
    ensures Walk(s, s.F.kroot, Page(v) + k).Some? && Walk(s, s.F.kroot, Page(w) + j).Some?
    ensures Walk(s, s.F.kroot, Page(v) + k).value.frame != Walk(s, s.F.kroot, Page(w) + j).value.frame
  {
    hide WalkFrom, Valid;
    assert RegionOk(s, v) && RegionPageOk(s, s.regions[v], k);
    assert RegionOk(s, w) && RegionPageOk(s, s.regions[w], j);
    VmPages(v, k);
    VmPages(w, j);
  }

  lemma SamePage(v: nat, i: nat)
    requires v % PAGE_SIZE == 0
    ensures Page(v + i) == Page(v + i / PAGE_SIZE * PAGE_SIZE) && (v + i) % PAGE_SIZE == i % PAGE_SIZE
  {
    assert (v + i) / PAGE_SIZE == v / PAGE_SIZE + i / PAGE_SIZE;
  }

  /** A mapping of page-aligned physical memory sends every address of the region to its place. */
  lemma PhysicalRegion(s: State, pool: set<nat>, v: nat, i: nat)
    requires Inv(s, pool) && v in s.regions && s.regions[v].paddr.Some? && s.regions[v].paddr.value % PAGE_SIZE == 0
    requires i < s.regions[v].pageCount * PAGE_SIZE
    ensures Translate(s.mem, s.F.kroot, v + i) == Some(s.regions[v].paddr.value + i)
  {
    hide WalkFrom, Valid, Page, UserPages, Owned;
    var k := i / PAGE_SIZE;
    assert RegionOk(s, v) && RegionPageOk(s, s.regions[v], k);
    VmPages(v, k);
    SamePage(v, i);
  }

  /** Every address of a region is mapped with the region's rights, and always with the user bit. */
  lemma RegionRights(s: State, pool: set<nat>, v: nat, i: nat)
    requires Inv(s, pool) && v in s.regions && i < s.regions[v].pageCount * PAGE_SIZE
    ensures Walk(s, s.F.kroot, Page(v + i)).Some?
    ensures var m, flags := Walk(s, s.F.kroot, Page(v + i)).value, s.regions[v].flags;
      m.level == 1 && m.user && m.write == flags.write && m.cacheDisable == flags.disableCache
  {
    hide WalkFrom, Valid, Page, UserPages, Owned;
    var k := i / PAGE_SIZE;
    assert RegionOk(s, v) && RegionPageOk(s, s.regions[v], k);
    VmPages(v, k);
    SamePage(v, i);
  }

  // The kernel half as the processes see it.

  lemma StepShowsKernel(s: State, op: Op, s': State, pool: set<nat>, n: nat)
    requires Step(s, op, s', pool) && n < PAGES && KernelHalf(n) && Walk(s, s.F.kroot, n).Some?
    requires forall r | IsRoot(s.F, r) :: Walk(s, r, n) == Walk(s, s.F.kroot, n)
    ensures forall r | IsRoot(s'.F, r) :: Walk(s', r, n) == Walk(s, s.F.kroot, n)
  {
    hide WalkFrom, Valid, TopStable, UserPages;
    ValidGives(s.mem, s.F);
    KernelPageNumber(n);
    if op.MapKernel? {
      RegionPages(s, op.region, 0);
      RegionPages(s, op.region, op.region.pageCount - 1);
    }
  }

  /** What every space sees of the kernel half stays so over any run, and every space created
      meanwhile sees it too: the kernel text and the direct map are there in all of them. */
  lemma {:induction false} KernelVisible(states: seq<State>, ops: seq<Op>, pool: set<nat>, r: nat, n: nat)
    requires Run(states, ops, pool) && n < PAGES && KernelHalf(n) && Walk(states[0], states[0].F.kroot, n).Some?
    requires forall q | IsRoot(states[0].F, q) :: Walk(states[0], q, n) == Walk(states[0], states[0].F.kroot, n)
    requires IsRoot(states[|ops|].F, r)
    ensures Walk(states[|ops|], r, n) == Walk(states[0], states[0].F.kroot, n)
    decreases |ops|
  {
    hide WalkFrom, Valid, Step;
    if |ops| > 0 {
      var k := |ops| - 1;
      assert Run(states[..k + 1], ops[..k], pool);
      forall q | IsRoot(states[k].F, q) ensures Walk(states[k], q, n) == Walk(states[0], states[0].F.kroot, n) {
        KernelVisible(states[..k + 1], ops[..k], pool, q, n);
      }
      StepKeepsRoots(states[k], ops[k], states[k + 1], pool);
      RunKroot(states, ops, pool, k);
      StepShowsKernel(states[k], ops[k], states[k + 1], pool, n);
    }
  }

  lemma RunKroot(states: seq<State>, ops: seq<Op>, pool: set<nat>, k: nat)
    requires Run(states, ops, pool) && k < |ops|
    ensures IsRoot(states[k].F, states[k].F.kroot)
  {
    hide WalkFrom;
    assert Step(states[k], ops[k], states[k + 1], pool);
    ValidGives(states[k].mem, states[k].F);
  }
}
