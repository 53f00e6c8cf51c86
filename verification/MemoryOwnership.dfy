/** Who owns a frame over whole runs of the memory manager, and which frames are lost. */
module MemoryOwnership {
  import opened Walks
  import opened Forests
  import opened Paths
  import opened FrameAlloc
  import opened PageTables
  import opened MemoryModel
  import opened MemoryRuns
  import opened MemoryBoots

  // Roles.

  /** What the manager uses a frame for; a locked frame, or one that is no memory, is outside. */
  datatype Role = Free | Table | Data(use: Use) | Outside

  function RoleOf(s: State, f: nat): Role {
    if f in s.free then Free
    else if f in s.F.nodes then Table
    else if f in s.use then Data(s.use[f])
    else Outside
  }

  /** No frame has two roles, and the pool is made of those that have one. */
  lemma OneRole(s: State, pool: set<nat>, f: nat)
    requires Inv(s, pool)
    ensures f in s.free <==> RoleOf(s, f) == Free
    ensures f in s.F.nodes <==> RoleOf(s, f) == Table
    ensures f in s.use <==> RoleOf(s, f).Data?
    ensures f in pool <==> RoleOf(s, f) != Outside
  {
    hide WalkFrom, Valid, UserPages, Regions;
  }

  lemma StepKeepsRole(s: State, op: Op, s': State, pool: set<nat>, f: nat)
    requires Step(s, op, s', pool) && RoleOf(s, f) != Free
    ensures RoleOf(s', f) == RoleOf(s, f)
  {
    hide WalkFrom, Valid, UserPages, Regions, TopStable;
    OneRole(s, pool, f);
    OneRole(s', pool, f);
  }

  /** A frame changes its role only by leaving the allocator: over any run tables stay tables, data
      frames stay with the page they were taken for, and what is outside stays outside. */
  lemma {:induction false} RolesStay(states: seq<State>, ops: seq<Op>, pool: set<nat>, f: nat)
    requires Run(states, ops, pool) && RoleOf(states[0], f) != Free
    ensures RoleOf(states[|ops|], f) == RoleOf(states[0], f)
    decreases |ops|
  {
    hide WalkFrom, Inv, Step;
    if |ops| > 0 {
      var k := |ops| - 1;
      assert Run(states[..k + 1], ops[..k], pool);
      RolesStay(states[..k + 1], ops[..k], pool, f);
      StepKeepsRole(states[k], ops[k], states[k + 1], pool, f);
    }
  }

  /** The pool that `new` starts with. */
  ghost predicate BootPool(boot: BootParameters, pool: set<nat>)
    requires boot.Valid()
  {
    forall f: nat :: f in pool <==> FreeAtBoot(boot, f)
  }

  /** In every state of every run the frames outside all roles are exactly those that were not
      free at boot. */
  lemma OutsideIff(boot: BootParameters, states: seq<State>, ops: seq<Op>, pool: set<nat>, i: nat, f: nat)
    requires boot.Valid() && BootPool(boot, pool) && Run(states, ops, pool) && i <= |ops|
    ensures RoleOf(states[i], f) == Outside <==> !FreeAtBoot(boot, f)
  {
    hide WalkFrom, Inv, FreeAtBoot;
    RunInv(states, ops, pool, i);
    OneRole(states[i], pool, f);
  }

  /** A locked frame is never free, a table or a data frame, and no user page is mapped to it. */
  lemma LockedStaysOut(boot: BootParameters, states: seq<State>, ops: seq<Op>, pool: set<nat>, i: nat, f: nat, r: nat, n: nat)
    requires boot.Valid() && BootPool(boot, pool) && Run(states, ops, pool) && i <= |ops| && Locked(boot, f)
    requires IsRoot(states[i].F, r) && n < PAGES && !KernelHalf(n)
    ensures RoleOf(states[i], f) == Outside
    ensures Walk(states[i], r, n).Some? ==> Walk(states[i], r, n).value.frame != f
  {
    hide WalkFrom, Valid, Locked;
    OutsideIff(boot, states, ops, pool, i, f);
    RunInv(states, ops, pool, i);
    assert UserPageOk(states[i], r, n);
  }

  /** The kernel keeps all of its frames over every run if and only if its run of frames could be
      locked, or needed no lock. */
  lemma KernelUntouchedIff(boot: BootParameters, states: seq<State>, ops: seq<Op>, pool: set<nat>, i: nat)
    requires boot.Valid() && BootPool(boot, pool) && Run(states, ops, pool) && i <= |ops|
    ensures (forall f: nat | KernelHolds(boot, f) :: RoleOf(states[i], f) == Outside) <==>
            || RunAvailable(boot.memoryMap, boot.KernelFrame(), boot.KernelPages())
            || (forall f: nat | KernelHolds(boot, f) && AvailableFrame(boot.memoryMap, f) ::
                  f < 4 && RunAvailable(boot.memoryMap, 0, 4))
  {
    hide RoleOf, BootPool, Step, Inv;
    forall f: nat ensures RoleOf(states[i], f) == Outside <==> !FreeAtBoot(boot, f) {
      OutsideIff(boot, states, ops, pool, i, f);
    }
    KernelIsKeptIff(boot);
  }

  // Lost frames.

  /** The frame was taken for a page of a space that is no longer mapped to it; nothing gives it back. */
  ghost predicate Lost(s: State, f: nat) {
    f in s.use && s.use[f].owner.Space? && !HeldBy(s, s.use[f].owner.root, f)
  }

  ghost predicate NothingLost(s: State) {
    forall f | f in s.use :: !Lost(s, f)
  }

  ghost predicate RecordOk(s: State, f: nat)
    requires f in s.use
  {
    match s.use[f].owner
    case Space(r) => IsRoot(s.F, r) && s.use[f].page < USER_PAGES
    case Kernel => HeldBy(s, s.F.kroot, f) && KernelHalf(s.use[f].page)
  }

  /** Data frames are recorded for user pages of spaces, or for the kernel page mapped to them. */
  ghost predicate Records(s: State) {
    forall f | f in s.use :: RecordOk(s, f)
  }

  /** The operation maps page `n` of space `r`. */
  ghost predicate Covers(op: Op, r: nat, n: nat) {
    op.MapUser? && op.root == r && op.first <= n < op.first + op.count
  }

  lemma StepUse(s: State, op: Op, s': State, pool: set<nat>, f: nat)
    requires Step(s, op, s', pool)
    ensures f in s.use ==> f in s'.use && s'.use[f] == s.use[f]
    ensures f in s'.use && f !in s.use && op.MapUser? ==>
      s'.use[f].owner == Space(op.root) && Covers(op, op.root, s'.use[f].page) && HeldBy(s', op.root, f)
    ensures f in s'.use && f !in s.use && !op.MapUser? ==>
      op.MapKernel? && s'.use[f].owner == Kernel && HeldBy(s', s'.F.kroot, f) && VM_FIRST <= s'.use[f].page < VM_END
  {
    hide WalkFrom, Valid, UserPages, Owned, TopStable;
    if op.MapKernel? {
      RegionPages(s, op.region, 0);
      RegionPages(s, op.region, op.region.pageCount - 1);
    }
  }

  lemma StepKeepsRecord(s: State, op: Op, s': State, pool: set<nat>, f: nat)
    requires Step(s, op, s', pool) && Records(s) && f in s'.use
    ensures RecordOk(s', f)
  {
    hide WalkFrom, Inv, Step, IndexAt;
    StepUse(s, op, s', pool, f);
    StepKeepsRoots(s, op, s', pool);
    if f in s.use {
      assert RecordOk(s, f);
      if s.use[f].owner.Kernel? { StepKeepsKernel(s, op, s', pool, s.use[f].page); }
    } else if op.MapUser? {
      MapUserRange(s, op, s', pool);
    } else {
      VmHalf(s'.use[f].page);
    }
  }

  lemma MapUserRange(s: State, op: Op, s': State, pool: set<nat>)
    requires Step(s, op, s', pool) && op.MapUser?
    ensures IsRoot(s.F, op.root) && op.first + op.count <= USER_PAGES
  {
    hide WalkFrom, Inv, UserMapped;
  }

  lemma StepKeepsRecords(s: State, op: Op, s': State, pool: set<nat>)
    requires Step(s, op, s', pool) && Records(s)
    ensures Records(s')
  {
    hide WalkFrom, Inv, Step, RecordOk;
    forall f | f in s'.use ensures RecordOk(s', f) {
      StepKeepsRecord(s, op, s', pool, f);
    }
  }

  /** After the operation the covered page has a frame that was free before. */
  lemma CoveredIsFresh(s: State, op: Op, s': State, pool: set<nat>, r: nat, n: nat)
    requires Step(s, op, s', pool) && Covers(op, r, n)
    ensures n < PAGES && !KernelHalf(n) && IsRoot(s.F, r)
    ensures Walk(s', r, n).Some? && Walk(s', r, n).value.frame in s.free
  {
    hide WalkFrom, Inv, Later;
    KernelPageNumber(n);
    assert FreshPage(s, s', Space(r), r, n, op.flags);
  }

  lemma FreeIsUnused(s: State, pool: set<nat>, f: nat)
    requires Inv(s, pool) && f in s.use
    ensures f !in s.free
  {
    hide WalkFrom, Valid, UserPages, Regions;
  }

  lemma StepInv(s: State, op: Op, s': State, pool: set<nat>)
    requires Step(s, op, s', pool)
    ensures Inv(s, pool) && Inv(s', pool)
  {
    hide Inv;
  }

  /** Exactly these frames are lost after a step: those lost before, and the frames of the pages
      that it maps although they were mapped. */
  lemma LostExactly(s: State, op: Op, s': State, pool: set<nat>, f: nat)
    requires Step(s, op, s', pool) && Records(s)
    ensures Lost(s', f) <==>
      f in s.use && s.use[f].owner.Space? &&
        (Lost(s, f) || Covers(op, s.use[f].owner.root, s.use[f].page))
  {
    hide WalkFrom, Inv, Step;
    StepUse(s, op, s', pool, f);
    if f in s.use && s.use[f].owner.Space? {
      var r, n := s.use[f].owner.root, s.use[f].page;
      assert RecordOk(s, f);
      KernelPageNumber(n);
      if Covers(op, r, n) {
        CoveredIsFresh(s, op, s', pool, r, n);
        StepInv(s, op, s', pool);
        FreeIsUnused(s, pool, f);
      } else {
        StepSeparates(s, op, s', pool, r, n);
      }
    }
  }

  /** A page that is mapped although it was mapped before. */
  ghost predicate MapsAgain(s: State, op: Op) {
    op.MapUser? && exists n: nat :: Covers(op, op.root, n) && Walk(s, op.root, n).Some?
  }

  /** A call of `map_in_userspace` loses a frame if and only if one of its pages was mapped before;
      no other operation does. */
  lemma StepLosesIff(s: State, op: Op, s': State, pool: set<nat>)
    requires Step(s, op, s', pool) && Records(s) && NothingLost(s)
    ensures NothingLost(s') <==> !MapsAgain(s, op)
  {
    hide WalkFrom, Inv, Step;
    if MapsAgain(s, op) {
      var n: nat :| Covers(op, op.root, n) && Walk(s, op.root, n).Some?;
      var f := Walk(s, op.root, n).value.frame;
      CoveredIsFresh(s, op, s', pool, op.root, n);
      MappedIsRecorded(s, op, s', pool, op.root, n);
      LostExactly(s, op, s', pool, f);
    } else {
      forall f | f in s'.use ensures !Lost(s', f) {
        LostExactly(s, op, s', pool, f);
      }
    }
  }

  lemma MappedIsRecorded(s: State, op: Op, s': State, pool: set<nat>, r: nat, n: nat)
    requires Step(s, op, s', pool) && IsRoot(s.F, r) && n < PAGES && !KernelHalf(n) && Walk(s, r, n).Some?
    ensures var f := Walk(s, r, n).value.frame; f in s.use && s.use[f] == Use(Space(r), n)
  {
    hide WalkFrom, Valid, Regions, Owned;
    StepInv(s, op, s', pool);
    assert UserPageOk(s, r, n);
  }

  lemma {:induction false} LostStays(states: seq<State>, ops: seq<Op>, pool: set<nat>, k: nat)
    requires Run(states, ops, pool) && Records(states[0]) && k <= |ops|
    ensures Records(states[|ops|])
    ensures NothingLost(states[|ops|]) ==> NothingLost(states[k])
    decreases |ops|
  {
    hide WalkFrom, Inv, Step, Lost, RecordOk;
    if |ops| > 0 {
      var m := |ops| - 1;
      assert Run(states[..m + 1], ops[..m], pool);
      LostStays(states[..m + 1], ops[..m], pool, if k <= m then k else m);
      StepKeepsRecords(states[m], ops[m], states[m + 1], pool);
      if k <= m && !NothingLost(states[m]) { LostRemains(states[m], ops[m], states[m + 1], pool); }
    }
  }

  lemma LostRemains(s: State, op: Op, s': State, pool: set<nat>)
    requires Step(s, op, s', pool) && Records(s) && !NothingLost(s)
    ensures !NothingLost(s')
  {
    hide WalkFrom, Inv, Step, Lost, RecordOk;
    var f :| f in s.use && Lost(s, f);
    LostGives(s, f);
    LostExactly(s, op, s', pool, f);
    StepUse(s, op, s', pool, f);
  }

  lemma LostGives(s: State, f: nat)
    requires Lost(s, f)
    ensures f in s.use && s.use[f].owner.Space?
  {}

  /** No frame is lost over a run if and only if no call maps a page that is mapped. */
  lemma {:induction false} RunLosesIff(states: seq<State>, ops: seq<Op>, pool: set<nat>)
    requires Run(states, ops, pool) && Records(states[0]) && NothingLost(states[0])
    ensures NothingLost(states[|ops|]) <==> forall i | 0 <= i < |ops| :: !MapsAgain(states[i], ops[i])
    decreases |ops|
  {
    hide WalkFrom, Inv, Step, NothingLost, Records, MapsAgain;
    if |ops| > 0 {
      var m := |ops| - 1;
      assert Run(states[..m + 1], ops[..m], pool);
      RunLosesIff(states[..m + 1], ops[..m], pool);
      LostStays(states[..m + 1], ops[..m], pool, 0);
      LostStays(states, ops, pool, m);
      if NothingLost(states[m]) { StepLosesIff(states[m], ops[m], states[m + 1], pool); }
    }
  }

  // The same, said of the calls alone.

  lemma StepMaps(s: State, op: Op, s': State, pool: set<nat>, r: nat, n: nat)
    requires Step(s, op, s', pool) && IsRoot(s'.F, r) && n < PAGES && !KernelHalf(n)
    ensures IsRoot(s.F, r) ==> (Walk(s', r, n).Some? <==> Walk(s, r, n).Some? || Covers(op, r, n))
    ensures !IsRoot(s.F, r) ==> Walk(s', r, n).None? && !Covers(op, r, n)
  {
    hide WalkFrom, Inv, Step;
    if Covers(op, r, n) {
      CoveredIsFresh(s, op, s', pool, r, n);
    } else if IsRoot(s.F, r) {
      StepSeparates(s, op, s', pool, r, n);
    } else {
      NewRootIsEmpty(s, op, s', pool, r, n);
    }
  }

  lemma NewRootIsEmpty(s: State, op: Op, s': State, pool: set<nat>, r: nat, n: nat)
    requires Step(s, op, s', pool) && IsRoot(s'.F, r) && !IsRoot(s.F, r) && n < PAGES && !KernelHalf(n)
    ensures Walk(s', r, n).None?
  {
    hide WalkFrom, Valid, UserPages, Regions, Owned;
    StepInv(s, op, s', pool);
    ReferenceUserHalf(s.mem, s.F, n);
  }

  /** In a run from a state where a user page is not mapped, or its space not there yet, the page is
      mapped at the end if and only if some call covered it. */
  lemma {:induction false} MappedIffCovered(states: seq<State>, ops: seq<Op>, pool: set<nat>, r: nat, n: nat)
    requires Run(states, ops, pool) && IsRoot(states[|ops|].F, r) && n < PAGES && !KernelHalf(n)
    requires IsRoot(states[0].F, r) ==> Walk(states[0], r, n).None?
    ensures Walk(states[|ops|], r, n).Some? <==> exists i :: 0 <= i < |ops| && Covers(ops[i], r, n)
    decreases |ops|
  {
    hide WalkFrom, Inv, Step, Covers;
    if |ops| > 0 {
      var m := |ops| - 1;
      assert Run(states[..m + 1], ops[..m], pool);
      StepMaps(states[m], ops[m], states[m + 1], pool, r, n);
      if IsRoot(states[m].F, r) {
        MappedIffCovered(states[..m + 1], ops[..m], pool, r, n);
      } else {
        forall i | 0 <= i < m ensures !Covers(ops[i], r, n) {
          NotYetCovered(states[..m + 1], ops[..m], pool, r, n, i);
        }
      }
    }
  }

  /** A user page carries the rights of the last call that covered it, and always the user bit. */
  lemma {:induction false} LastCallDecides(states: seq<State>, ops: seq<Op>, pool: set<nat>, r: nat, n: nat, i: nat)
    requires Run(states, ops, pool) && i < |ops| && Covers(ops[i], r, n)
    requires forall j | i < j < |ops| :: !Covers(ops[j], r, n)
    ensures Walk(states[|ops|], r, n).Some?
    ensures var m := Walk(states[|ops|], r, n).value;
      m == Mapping(m.frame, 1, ops[i].flags.write, true, ops[i].flags.disableCache)
    decreases |ops|
  {
    hide WalkFrom, Inv, Step, Covers;
    var m := |ops| - 1;
    if i < m {
      assert Run(states[..m + 1], ops[..m], pool);
      LastCallDecides(states[..m + 1], ops[..m], pool, r, n, i);
      NotCovered(states[m], ops[m], states[m + 1], pool, r, n, states[i], ops[i], states[i + 1]);
      RootStays(states[..m + 1], ops[..m], pool, i, r, n);
      StepSeparates(states[m], ops[m], states[m + 1], pool, r, n);
    } else {
      CoveredHasRights(states[m], ops[m], states[m + 1], pool, r, n);
    }
  }

  lemma NotCovered(s: State, op: Op, s': State, pool: set<nat>, r: nat, n: nat, s0: State, op0: Op, s1: State)
    requires !Covers(op, r, n) && Covers(op0, r, n) && Step(s0, op0, s1, pool)
    ensures !(op.MapUser? && op.root == r && op.first <= n < op.first + op.count)
    ensures n < PAGES && !KernelHalf(n)
  {
    hide WalkFrom, Inv, Step;
    CoveredIsFresh(s0, op0, s1, pool, r, n);
  }

  lemma {:induction false} RootStays(states: seq<State>, ops: seq<Op>, pool: set<nat>, i: nat, r: nat, n: nat)
    requires Run(states, ops, pool) && i < |ops| && Covers(ops[i], r, n)
    ensures IsRoot(states[|ops|].F, r)
    decreases |ops|
  {
    hide WalkFrom, Inv, Step;
    var m := |ops| - 1;
    StepKeepsRoots(states[m], ops[m], states[m + 1], pool);
    if i < m {
      assert Run(states[..m + 1], ops[..m], pool);
      RootStays(states[..m + 1], ops[..m], pool, i, r, n);
    } else {
      CoveredIsFresh(states[m], ops[m], states[m + 1], pool, r, n);
    }
  }

  lemma CoveredHasRights(s: State, op: Op, s': State, pool: set<nat>, r: nat, n: nat)
    requires Step(s, op, s', pool) && Covers(op, r, n)
    ensures Walk(s', r, n).Some?
    ensures var m := Walk(s', r, n).value; m == Mapping(m.frame, 1, op.flags.write, true, op.flags.disableCache)
  {
    hide WalkFrom, Inv, Later;
    CoveredIsFresh(s, op, s', pool, r, n);
    assert FreshPage(s, s', Space(r), r, n, op.flags);
  }

  lemma {:induction false} NotYetCovered(states: seq<State>, ops: seq<Op>, pool: set<nat>, r: nat, n: nat, i: nat)
    requires Run(states, ops, pool) && !IsRoot(states[|ops|].F, r) && i < |ops|
    ensures !Covers(ops[i], r, n)
    decreases |ops|
  {
    hide WalkFrom, Inv, Step;
    var m := |ops| - 1;
    StepKeepsRoots(states[m], ops[m], states[m + 1], pool);
    if i < m {
      assert Run(states[..m + 1], ops[..m], pool);
      NotYetCovered(states[..m + 1], ops[..m], pool, r, n, i);
    } else if Covers(ops[m], r, n) {
      CoveredIsFresh(states[m], ops[m], states[m + 1], pool, r, n);
    }
  }

  /** Two calls map pages of the same space, and some page twice. */
  ghost predicate Collide(a: Op, b: Op) {
    && a.MapUser? && b.MapUser? && a.root == b.root && a.count > 0 && b.count > 0
    && a.first < b.first + b.count && b.first < a.first + a.count
  }

  lemma CollideIff(a: Op, b: Op)
    ensures Collide(a, b) <==> b.MapUser? && exists n: nat :: Covers(a, b.root, n) && Covers(b, b.root, n)
  {
    if Collide(a, b) {
      var n := if a.first < b.first then b.first else a.first;
      assert Covers(a, b.root, n) && Covers(b, b.root, n);
    }
  }

  /** The spaces that the calls map into are empty at first, or not there yet. */
  ghost predicate StartsEmpty(s: State, ops: seq<Op>) {
    forall i, n: nat | 0 <= i < |ops| && ops[i].MapUser? && IsRoot(s.F, ops[i].root) && n < PAGES && !KernelHalf(n) ::
      Walk(s, ops[i].root, n).None?
  }

  lemma MapsAgainIff(states: seq<State>, ops: seq<Op>, pool: set<nat>, j: nat)
    requires Run(states, ops, pool) && StartsEmpty(states[0], ops) && j < |ops|
    ensures MapsAgain(states[j], ops[j]) <==> exists i :: 0 <= i < j && Collide(ops[i], ops[j])
  {
    hide WalkFrom, Inv, Step, Covers, Collide;
    var op := ops[j];
    assert Run(states[..j + 1], ops[..j], pool);
    forall i | 0 <= i < j ensures Collide(ops[i], op) <==> op.MapUser? && exists n: nat :: Covers(ops[i], op.root, n) && Covers(op, op.root, n) {
      CollideIff(ops[i], op);
    }
    if op.MapUser? {
      forall n: nat | Covers(op, op.root, n)
        ensures Walk(states[j], op.root, n).Some? <==> exists i :: 0 <= i < j && Covers(ops[i], op.root, n)
      {
        CoveredIsFresh(states[j], op, states[j + 1], pool, op.root, n);
        MappedIffCovered(states[..j + 1], ops[..j], pool, op.root, n);
      }
    }
  }

  /** From a state where nothing is lost and the spaces in question are empty, no frame is ever lost
      if and only if no two calls of `map_in_userspace` cover the same page of the same space. */
  lemma NothingLostIff(states: seq<State>, ops: seq<Op>, pool: set<nat>)
    requires Run(states, ops, pool) && Records(states[0]) && NothingLost(states[0]) && StartsEmpty(states[0], ops)
    ensures NothingLost(states[|ops|]) <==> forall i, j | 0 <= i < j < |ops| :: !Collide(ops[i], ops[j])
  {
    hide WalkFrom, Inv, Step, Collide, MapsAgain, StartsEmpty, Records, NothingLost;
    RunLosesIff(states, ops, pool);
    forall j | 0 <= j < |ops|
      ensures MapsAgain(states[j], ops[j]) <==> exists i :: 0 <= i < j && Collide(ops[i], ops[j])
    {
      MapsAgainIff(states, ops, pool, j);
    }
  }

  /** The booted state is such a state. */
  lemma BootLosesIff(states: seq<State>, ops: seq<Op>, pool: set<nat>)
    requires Run(states, ops, pool) && OneRoot(states[0].F) && states[0].use == map[]
    ensures NothingLost(states[|ops|]) <==> forall i, j | 0 <= i < j < |ops| :: !Collide(ops[i], ops[j])
  {
    hide WalkFrom, Inv, Step, Collide;
    forall i, n: nat | 0 <= i < |ops| && ops[i].MapUser? && IsRoot(states[0].F, ops[i].root) && n < PAGES && !KernelHalf(n)
      ensures Walk(states[0], ops[i].root, n).None?
    {
      ReferenceStaysKernelOnly(states, ops, pool, 0, n);
    }
    NothingLostIff(states, ops, pool);
  }

  /** Two calls for the first page of a new space lose a frame. */
  lemma TwoCallsExample(states: seq<State>, pool: set<nat>, r: nat, flags: RegionFlags)
    requires Run(states, [NewSpace(r), MapUser(r, 0, 1, flags), MapUser(r, 0, 1, flags)], pool)
    requires OneRoot(states[0].F) && states[0].use == map[]
    ensures !NothingLost(states[3])
  {
    hide WalkFrom, Inv, Step, NothingLost;
    var ops := [NewSpace(r), MapUser(r, 0, 1, flags), MapUser(r, 0, 1, flags)];
    assert Collide(ops[1], ops[2]);
    BootLosesIff(states, ops, pool);
  }
}
