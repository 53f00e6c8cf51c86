/** A program's image in user space (kernel/src/process.rs:109-168): `replace_image` creates an address
    space and maps the segments of an ELF file and a stack into it. */
module ProcessImages {
  import opened Wrappers
  import opened Entries
  import opened Walks
  import opened Forests
  import opened Paths
  import opened PageTables
  import opened MemoryModel
  import opened MemoryRuns
  import opened MemoryOwnership
  import opened MemoryManagers
  import opened Elfs
  import Loaders
  import opened Schedulers

  const USER_STACK_FLAGS: RegionFlags := RegionFlags(true, true, false, false)

  /** The region flags of a segment. */
  function SegmentFlags(h: ProgramHeader): RegionFlags {
    RegionFlags(h.flags / 4 % 2 == 1, h.flags / 2 % 2 == 1, h.flags % 2 == 1, false)
  }

  function MapOp(root: nat, vaddr: nat, size: nat, flags: RegionFlags): Op {
    MapUser(root, Page(vaddr), size / PAGE_SIZE + 1, flags)
  }

  function SegmentOps(root: nat, loads: seq<ProgramHeader>): seq<Op> {
    seq(|loads|, k requires 0 <= k < |loads| => MapOp(root, loads[k].vaddr, loads[k].memorySize, SegmentFlags(loads[k])))
  }

  /** The operations of the memory manager that `replace_image` amounts to. */
  function ImageOps(root: nat, loads: seq<ProgramHeader>): seq<Op> {
    [NewSpace(root)] + SegmentOps(root, loads) + [MapOp(root, USER_STACK_START, USER_STACK_SIZE, USER_STACK_FLAGS)]
  }

  function SegmentRegions(loads: seq<ProgramHeader>): seq<(nat, nat, RegionFlags)> {
    seq(|loads|, k requires 0 <= k < |loads| => (loads[k].vaddr, loads[k].memorySize, SegmentFlags(loads[k])))
  }

  function ImageRegions(loads: seq<ProgramHeader>): seq<(nat, nat, RegionFlags)> {
    SegmentRegions(loads) + [(USER_STACK_START, USER_STACK_SIZE, USER_STACK_FLAGS)]
  }

  /** The segment lies in the user half, and its part of the file in the file; otherwise a slice panics. */
  predicate SegmentFits(elf: Elf, h: ProgramHeader) {
    && h.vaddr + (h.memorySize / PAGE_SIZE + 1) * PAGE_SIZE <= USER_END
    && h.offset + h.fileSize <= |elf.bytes|
  }

  /** A run of the manager that starts with the given state and has come to its current one. */
  ghost predicate Ran(m: MemoryManager, start: State, states: seq<State>, ops: seq<Op>)
    reads m, m.pm, m.frameAllocator
  {
    && |states| == |ops| + 1 && Run(states, ops, m.pool)
    && states[0] == start && states[|ops|] == m.Abstract()
  }

  lemma RunExtend(states: seq<State>, ops: seq<Op>, pool: set<nat>, op: Op, s': State)
    requires Run(states, ops, pool) && Step(states[|ops|], op, s', pool)
    ensures Run(states + [s'], ops + [op], pool)
  {
    hide Step, Inv;
    var more, moreOps := states + [s'], ops + [op];
    forall i | 0 <= i < |moreOps| ensures Step(more[i], moreOps[i], more[i + 1], pool) {
      if i < |ops| { assert Step(states[i], ops[i], states[i + 1], pool); }
    }
  }

  lemma FirstStep(s: State, op: Op, s': State, pool: set<nat>)
    requires Step(s, op, s', pool)
    ensures Run([s, s'], [op], pool)
  {
    hide Inv;
  }

  lemma NewSpaceRoot(s: State, c: nat, s': State, pool: set<nat>)
    requires Step(s, NewSpace(c), s', pool)
    ensures IsRoot(s'.F, c) && c != s'.F.kroot
  {
    hide WalkFrom, UserPages, Regions;
    ValidGives(s.mem, s.F);
  }

  ghost predicate IsSpace(F: Forest, root: nat) {
    IsRoot(F, root) && root != F.kroot
  }

  /** `MemorySpace::new`. */
  method NewMemorySpace(m: MemoryManager) returns (space: Option<MemorySpace>)
    requires m.Valid()
    modifies m`F, m.pm, m.frameAllocator`free, m.frameAllocator.Repr
    ensures m.frameAllocator.Repr == old(m.frameAllocator.Repr)
    ensures space.None? ==> m.frameAllocator.free == {}
    ensures space.Some? ==> m.Valid() && fresh(space.value) && space.value.pageTable % PAGE_SIZE == 0
    ensures space.Some? ==> space.value.regions == [] && IsSpace(m.F, space.value.pageTable / PAGE_SIZE)
    ensures space.Some? ==> Step(old(m.Abstract()), NewSpace(space.value.pageTable / PAGE_SIZE), m.Abstract(), m.pool)
  {
    hide Inv, Step;
    ghost var s := m.Abstract();
    var table := m.CreatePageTable();
    if table.None? { return None; }
    NewSpaceRoot(s, table.value / PAGE_SIZE, m.Abstract(), m.pool);
    var created := new MemorySpace(table.value);
    return Some(created);
  }

  /** One call of `map_in_userspace`, as the next step of the run. */
  method MapNext(m: MemoryManager, space: MemorySpace, vaddr: nat, size: nat, flags: RegionFlags,
                 ghost start: State, ghost states: seq<State>, ghost ops: seq<Op>)
    returns (ok: bool, ghost states': seq<State>)
    requires m.Valid() && space.pageTable % PAGE_SIZE == 0 && IsSpace(m.F, space.pageTable / PAGE_SIZE)
    requires space !in m.frameAllocator.Repr && vaddr + (size / PAGE_SIZE + 1) * PAGE_SIZE <= USER_END
    requires Ran(m, start, states, ops)
    modifies m`F, m`use, m.pm, m.frameAllocator`free, m.frameAllocator.Repr, space
    ensures m.frameAllocator.Repr == old(m.frameAllocator.Repr)
    ensures !ok ==> m.frameAllocator.free == {}
    ensures ok ==> m.Valid() && IsSpace(m.F, space.pageTable / PAGE_SIZE)
    ensures ok ==> space.regions == old(space.regions) + [(vaddr, size, flags)]
    ensures ok ==> Ran(m, start, states', ops + [MapOp(space.pageTable / PAGE_SIZE, vaddr, size, flags)])
  {
    hide Inv, Step, Run, Page;
    ghost var s, op := m.Abstract(), MapOp(space.pageTable / PAGE_SIZE, vaddr, size, flags);
    ok := m.MapInUserspace(space, vaddr, size, flags);
    states' := states;
    if ok {
      states' := states + [m.Abstract()];
      RunExtend(states, ops, m.pool, op, m.Abstract());
      StepKeepsRoots(s, op, m.Abstract(), m.pool);
    }
  }

  lemma SegmentsAppend(root: nat, loads: seq<ProgramHeader>, h: ProgramHeader)
    ensures SegmentOps(root, loads + [h]) == SegmentOps(root, loads) + [MapOp(root, h.vaddr, h.memorySize, SegmentFlags(h))]
    ensures SegmentRegions(loads + [h]) == SegmentRegions(loads) + [(h.vaddr, h.memorySize, SegmentFlags(h))]
  {}

  /** The loop of `replace_image`. */
  method MapSegments(m: MemoryManager, space: MemorySpace, elf: Elf, ghost start: State, ghost created: seq<State>)
    returns (ok: bool, ghost states: seq<State>)
    requires m.Valid() && space.pageTable % PAGE_SIZE == 0 && IsSpace(m.F, space.pageTable / PAGE_SIZE)
    requires space !in m.frameAllocator.Repr && space.regions == [] && elf.TableFits()
    requires forall k | 0 <= k < |Loaders.LoadsOf(elf)| :: SegmentFits(elf, Loaders.LoadsOf(elf)[k])
    requires Ran(m, start, created, [NewSpace(space.pageTable / PAGE_SIZE)])
    modifies m`F, m`use, m.pm, m.frameAllocator`free, m.frameAllocator.Repr, space
    ensures m.frameAllocator.Repr == old(m.frameAllocator.Repr)
    ensures !ok ==> m.frameAllocator.free == {}
    ensures ok ==> m.Valid() && IsSpace(m.F, space.pageTable / PAGE_SIZE)
    ensures ok ==> space.regions == SegmentRegions(Loaders.LoadsOf(elf))
    ensures ok ==> var root := space.pageTable / PAGE_SIZE;
      Ran(m, start, states, [NewSpace(root)] + SegmentOps(root, Loaders.LoadsOf(elf)))
  {
    hide Inv, Step, Run, ParseHeader, Loads, Elf.HeadersFrom, IsSpace, SegmentOps, SegmentRegions;
    ghost var root, all := space.pageTable / PAGE_SIZE, Loaders.LoadsOf(elf);
    ghost var loads: seq<ProgramHeader>, ops := [], [NewSpace(root)];
    states := created;
    var iter := new ProgramHeaderIter(elf);
    Loaders.NoLoads(elf);
    NoSegments(root);
    assert ops + [] == ops;
    while true
      invariant iter.elf == elf && iter.index <= elf.numEntries && fresh(iter)
      invariant all == loads + Loads(elf.HeadersFrom(iter.index))
      invariant m.Valid() && IsSpace(m.F, root) && m.frameAllocator.Repr == old(m.frameAllocator.Repr)
      invariant Ran(m, start, states, ops) && ops == [NewSpace(root)] + SegmentOps(root, loads)
      invariant space.regions == SegmentRegions(loads)
      decreases elf.numEntries - iter.index
    {
      var header := iter.Next();
      if header.None? { break; }
      var h := header.value;
      Loaders.LoadsNext(loads, h, elf.HeadersFrom(iter.index));
      if h.typ != Load { continue; }
      assert all[|loads|] == h;
      ok, states := MapNext(m, space, h.vaddr, h.memorySize, SegmentFlags(h), start, states, ops);
      if !ok { return; }
      SegmentsAppend(root, loads, h);
      loads := loads + [h];
      ops := ops + [MapOp(root, h.vaddr, h.memorySize, SegmentFlags(h))];
      assert ops == [NewSpace(root)] + SegmentOps(root, loads);
    }
    Loaders.NoLoads(elf);
    assert loads + [] == loads;
    return true, states;
  }

  lemma NoSegments(root: nat)
    ensures SegmentOps(root, []) == [] && SegmentRegions([]) == []
  {}

  /** The part of `replace_image` that sets up the address space. The manager goes through exactly
      the steps of `ImageOps`, so every theorem about runs applies to it. */
  method MapImage(m: MemoryManager, elf: Elf) returns (space: Option<MemorySpace>, ghost states: seq<State>)
    requires m.Valid() && elf.TableFits()
    requires forall k | 0 <= k < |Loaders.LoadsOf(elf)| :: SegmentFits(elf, Loaders.LoadsOf(elf)[k])
    modifies m`F, m`use, m.pm, m.frameAllocator`free, m.frameAllocator.Repr
    ensures space.None? ==> m.frameAllocator.free == {}
    ensures space.Some? ==> m.Valid() && fresh(space.value)
    ensures space.Some? ==>
      Ran(m, old(m.Abstract()), states, ImageOps(space.value.pageTable / PAGE_SIZE, Loaders.LoadsOf(elf)))
    ensures space.Some? ==> space.value.regions == ImageRegions(Loaders.LoadsOf(elf))
  {
    hide Inv, Step, Run, Loads, Elf.HeadersFrom, IsSpace, SegmentOps, SegmentRegions, SegmentFits;
    ghost var start := m.Abstract();
    states := [];
    space := NewMemorySpace(m);
    if space.None? { return; }
    FirstStep(start, NewSpace(space.value.pageTable / PAGE_SIZE), m.Abstract(), m.pool);
    var ok;
    ok, states := MapSegments(m, space.value, elf, start, [start, m.Abstract()]);
    if !ok { return None, states; }
    ghost var root := space.value.pageTable / PAGE_SIZE;
    ok, states := MapNext(m, space.value, USER_STACK_START, USER_STACK_SIZE, USER_STACK_FLAGS, start, states,
                          [NewSpace(root)] + SegmentOps(root, Loaders.LoadsOf(elf)));
    if !ok { return None, states; }
  }

  // What the image is.

  predicate PageOfRange(vaddr: nat, size: nat, n: nat) {
    Page(vaddr) <= n < Page(vaddr) + (size / PAGE_SIZE + 1)
  }

  ghost predicate PageOfImage(loads: seq<ProgramHeader>, n: nat) {
    || PageOfRange(USER_STACK_START, USER_STACK_SIZE, n)
    || exists k :: 0 <= k < |loads| && PageOfRange(loads[k].vaddr, loads[k].memorySize, n)
  }

  lemma OpsCoverImage(root: nat, loads: seq<ProgramHeader>, n: nat)
    ensures (exists i :: 0 <= i < |ImageOps(root, loads)| && Covers(ImageOps(root, loads)[i], root, n)) <==> PageOfImage(loads, n)
  {
    hide Page;
    var ops := ImageOps(root, loads);
    assert forall k | 0 <= k < |loads| :: Covers(ops[k + 1], root, n) <==> PageOfRange(loads[k].vaddr, loads[k].memorySize, n);
    assert Covers(ops[|loads| + 1], root, n) <==> PageOfRange(USER_STACK_START, USER_STACK_SIZE, n);
    if i :| 0 <= i < |ops| && Covers(ops[i], root, n) {
      if 0 < i <= |loads| { assert PageOfRange(loads[i - 1].vaddr, loads[i - 1].memorySize, n); }
    }
  }

  /** The new space maps exactly the pages of the segments and of the stack. */
  lemma ImageIsMapped(states: seq<State>, root: nat, loads: seq<ProgramHeader>, pool: set<nat>, n: nat)
    requires Run(states, ImageOps(root, loads), pool) && n < PAGES && !KernelHalf(n)
    ensures Walk(states[|loads| + 2], root, n).Some? <==> PageOfImage(loads, n)
  {
    hide WalkFrom, Inv, Step, ImageOps, PageOfImage, Covers;
    ImageStart(states, root, loads, pool);
    MappedIffCovered(states, ImageOps(root, loads), pool, root, n);
    OpsCoverImage(root, loads, n);
  }

  lemma {:induction false} RootsStay(states: seq<State>, ops: seq<Op>, pool: set<nat>, r: nat)
    requires Run(states, ops, pool) && IsRoot(states[0].F, r)
    ensures IsRoot(states[|ops|].F, r)
    decreases |ops|
  {
    hide WalkFrom, Inv, Step;
    if |ops| > 0 {
      var m := |ops| - 1;
      assert Run(states[..m + 1], ops[..m], pool);
      RootsStay(states[..m + 1], ops[..m], pool, r);
      StepKeepsRoots(states[m], ops[m], states[m + 1], pool);
    }
  }

  lemma NewRootWasFree(s: State, c: nat, s': State, pool: set<nat>)
    requires Step(s, NewSpace(c), s', pool)
    ensures !IsRoot(s.F, c) && Inv(s', pool)
  {
    hide WalkFrom, UserPages, Regions, Valid;
  }

  lemma ImageStart(states: seq<State>, root: nat, loads: seq<ProgramHeader>, pool: set<nat>)
    requires Run(states, ImageOps(root, loads), pool)
    ensures |ImageOps(root, loads)| == |loads| + 2
    ensures !IsRoot(states[0].F, root) && IsRoot(states[|loads| + 2].F, root)
  {
    hide Inv, Step, Page;
    var ops := ImageOps(root, loads);
    assert ops[0] == NewSpace(root) && Step(states[0], ops[0], states[1], pool);
    NewRootWasFree(states[0], root, states[1], pool);
    NewSpaceRoot(states[0], root, states[1], pool);
    forall i | 0 <= i < |ops| - 1 ensures Step(states[1..][i], ops[1..][i], states[1..][i + 1], pool) {
      assert Step(states[i + 1], ops[i + 1], states[i + 2], pool);
    }
    RootsStay(states[1..], ops[1..], pool, root);
  }

  /** A page of a segment that no later segment and no part of the stack touches carries the
      segment's write permission. */
  lemma SegmentRights(states: seq<State>, root: nat, loads: seq<ProgramHeader>, pool: set<nat>, k: nat, n: nat)
    requires Run(states, ImageOps(root, loads), pool) && k < |loads| && PageOfRange(loads[k].vaddr, loads[k].memorySize, n)
    requires !PageOfRange(USER_STACK_START, USER_STACK_SIZE, n)
    requires forall j | k < j < |loads| :: !PageOfRange(loads[j].vaddr, loads[j].memorySize, n)
    ensures Walk(states[|loads| + 2], root, n).Some?
    ensures Walk(states[|loads| + 2], root, n).value.user
    ensures Walk(states[|loads| + 2], root, n).value.write <==> loads[k].flags / 2 % 2 == 1
    ensures !Walk(states[|loads| + 2], root, n).value.cacheDisable
  {
    hide WalkFrom, Inv, Step, Page;
    var ops := ImageOps(root, loads);
    forall j | k + 1 < j < |ops| ensures !Covers(ops[j], root, n) {
      if j <= |loads| { assert ops[j] == MapOp(root, loads[j - 1].vaddr, loads[j - 1].memorySize, SegmentFlags(loads[j - 1])); }
    }
    LastCallDecides(states, ops, pool, root, n, k + 1);
  }

  /** The stack is ready: its 16K from 0x7000_0000_0000 on are mapped for the user to write to, and
      the registers of the image enter with a stack pointer at their end. */
  lemma StackIsReady(states: seq<State>, root: nat, loads: seq<ProgramHeader>, pool: set<nat>, entry: nat, a: nat)
    requires Run(states, ImageOps(root, loads), pool) && 0x7000_0000_0000 <= a < 0x7000_0000_4000
    ensures Walk(states[|loads| + 2], root, Page(a)).Some?
    ensures var m := Walk(states[|loads| + 2], root, Page(a)).value; m.write && m.user && !m.cacheDisable
    ensures ImageRegisters(entry).rsp == 0x7000_0000_4000
  {
    hide WalkFrom, Inv, Step, Page, SegmentOps;
    StackPage(a);
    var ops := ImageOps(root, loads);
    SegmentCount(root, loads);
    assert ops[|loads| + 1] == MapOp(root, USER_STACK_START, USER_STACK_SIZE, USER_STACK_FLAGS);
    LastCallDecides(states, ops, pool, root, Page(a), |loads| + 1);
  }

  lemma SegmentCount(root: nat, loads: seq<ProgramHeader>)
    ensures |SegmentOps(root, loads)| == |loads|
  {}

  lemma StackPage(a: nat)
    requires 0x7000_0000_0000 <= a < 0x7000_0000_4000
    ensures PageOfRange(USER_STACK_START, USER_STACK_SIZE, Page(a))
  {
    assert 0x7_0000_0000 <= a / PAGE_SIZE < 0x7_0000_0004;
  }

  /** The flags of a segment are the bits PF_R, PF_W and PF_X of its header (gABI, chapter 5). */
  lemma SegmentFlagsIff(h: ProgramHeader)
    requires h.flags < 8
    ensures SegmentFlags(h).read <==> h.flags in {4, 5, 6, 7}
    ensures SegmentFlags(h).write <==> h.flags in {2, 3, 6, 7}
    ensures SegmentFlags(h).execute <==> h.flags in {1, 3, 5, 7}
    ensures !SegmentFlags(h).disableCache
  {}

  /** Two ranges of the image share a page. */
  ghost predicate RangesMeet(a: (nat, nat, RegionFlags), b: (nat, nat, RegionFlags)) {
    exists n: nat :: PageOfRange(a.0, a.1, n) && PageOfRange(b.0, b.1, n)
  }

  lemma OpAt(root: nat, loads: seq<ProgramHeader>, i: nat)
    requires i < |loads| + 1
    ensures |ImageOps(root, loads)| == |loads| + 2 && |ImageRegions(loads)| == |loads| + 1
    ensures var region := ImageRegions(loads)[i]; ImageOps(root, loads)[i + 1] == MapOp(root, region.0, region.1, region.2)
  {
    hide Page;
  }

  lemma CollideIsMeet(root: nat, loads: seq<ProgramHeader>, i: nat, j: nat)
    requires i < j < |loads| + 1
    ensures Collide(ImageOps(root, loads)[i + 1], ImageOps(root, loads)[j + 1]) <==>
            RangesMeet(ImageRegions(loads)[i], ImageRegions(loads)[j])
  {
    hide MapOp, Collide, RangesMeet;
    OpAt(root, loads, i);
    OpAt(root, loads, j);
    MeetIsCollide(root, ImageRegions(loads)[i], ImageRegions(loads)[j]);
  }

  lemma MeetIsCollide(root: nat, a: (nat, nat, RegionFlags), b: (nat, nat, RegionFlags))
    ensures Collide(MapOp(root, a.0, a.1, a.2), MapOp(root, b.0, b.1, b.2)) <==> RangesMeet(a, b)
  {
    hide Page;
    if Collide(MapOp(root, a.0, a.1, a.2), MapOp(root, b.0, b.1, b.2)) {
      var n := if Page(a.0) < Page(b.0) then Page(b.0) else Page(a.0);
      assert PageOfRange(a.0, a.1, n) && PageOfRange(b.0, b.1, n);
    }
  }

  /** Setting up the image loses a frame if and only if two of its ranges share a page: the code maps
      such a page twice and drops the first frame. */
  lemma ImageLosesIff(states: seq<State>, root: nat, loads: seq<ProgramHeader>, pool: set<nat>)
    requires Run(states, ImageOps(root, loads), pool) && Records(states[0]) && NothingLost(states[0])
    ensures NothingLost(states[|loads| + 2]) <==>
            forall i: nat, j: nat | i < j < |loads| + 1 :: !RangesMeet(ImageRegions(loads)[i], ImageRegions(loads)[j])
  {
    hide WalkFrom, Inv, Step, ImageOps, Collide, RangesMeet, ImageRegions, NothingLost, Records;
    var ops := ImageOps(root, loads);
    ImageStart(states, root, loads, pool);
    OpsInOneSpace(states[0], root, loads);
    NothingLostIff(states, ops, pool);
    forall i: nat, j: nat | i < j < |loads| + 1
      ensures Collide(ops[i + 1], ops[j + 1]) <==> RangesMeet(ImageRegions(loads)[i], ImageRegions(loads)[j])
    {
      CollideIsMeet(root, loads, i, j);
    }
    forall j | 0 < j < |ops| ensures !Collide(ops[0], ops[j]) { FirstMapsNothing(root, loads, j); }
    if forall i: nat, j: nat | i < j < |loads| + 1 :: !RangesMeet(ImageRegions(loads)[i], ImageRegions(loads)[j]) {
      forall i, j | 0 <= i < j < |ops| ensures !Collide(ops[i], ops[j]) {
        if i > 0 {
          var a: nat, b: nat := i - 1, j - 1;
          assert !RangesMeet(ImageRegions(loads)[a], ImageRegions(loads)[b]) && !Collide(ops[a + 1], ops[b + 1]);
        }
      }
    }
  }

  lemma FirstMapsNothing(root: nat, loads: seq<ProgramHeader>, j: nat)
    requires j < |ImageOps(root, loads)|
    ensures !Collide(ImageOps(root, loads)[0], ImageOps(root, loads)[j])
  {}

  lemma OpsInOneSpace(s: State, root: nat, loads: seq<ProgramHeader>)
    requires !IsRoot(s.F, root)
    ensures StartsEmpty(s, ImageOps(root, loads)) && |ImageRegions(loads)| == |loads| + 1
  {
    hide WalkFrom, Page;
    var ops := ImageOps(root, loads);
    forall i | 0 <= i < |ops| && ops[i].MapUser? ensures ops[i].root == root {
      if 0 < i <= |loads| { assert ops[i] == MapOp(root, loads[i - 1].vaddr, loads[i - 1].memorySize, SegmentFlags(loads[i - 1])); }
    }
  }
}
