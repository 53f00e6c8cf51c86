/** `map_raw_user` in any table and for any address (kernel/src/arch/x86_64/page_table.rs:180-203). A
    kernel-half page of a process is mapped through the tables that the process shares with the
    reference table, or, if its own top-level entry is absent, through new tables of its own. */
module ProcessMappings {
  import opened Wrappers
  import opened Bits
  import opened Entries
  import opened Walks
  import opened Forests
  import opened Paths
  import opened PhysMem
  import opened FrameAlloc
  import opened PageTables
  import opened Spaces
  import opened MemoryModel
  import opened MemoryBoots

  // The tables that one root reaches, as a tree of its own.

  /** The top-level entry that leads to the table with this prefix. */
  function TopSlot(level: nat, prefix: nat): nat
    decreases 3 - level
  {
    if level >= 3 then prefix else TopSlot(level + 1, prefix / SLOTS)
  }

  ghost predicate Reached(mem: seq<Word>, r: nat, nd: Node) {
    match nd.owner
    case Space(o) => o == r
    case Kernel =>
      var s := Slot(r, TopSlot(nd.level, nd.prefix));
      s < |mem| && Present(mem[s])
  }

  /** Tables below a shared entry hang in `r` as well. */
  function Rehung(nd: Node, r: nat): Node {
    if nd.owner.Kernel? && nd.level == 3 then nd.(parent := r) else nd
  }

  ghost function ViewOf(mem: seq<Word>, F: Forest, r: nat): Forest {
    Forest(map g | g in F.nodes && Reached(mem, r, F.nodes[g]) :: Rehung(F.nodes[g], r), r, F.user)
  }

  lemma TopOfChild(prefix: nat, level: nat, i: nat)
    requires level <= 3 && i < SLOTS
    ensures level > 0 ==> TopSlot(level - 1, prefix * SLOTS + i) == TopSlot(level, prefix)
  {
    PrefixSplit(prefix, i);
  }

  /** A table that is no root has the owner of its parent, unless it hangs in a kernel entry of a root. */
  lemma ParentIs(mem: seq<Word>, F: Forest, g: nat)
    requires Valid(mem, F) && g in F.nodes && F.nodes[g].level < 4
    ensures var nd := F.nodes[g]; var p, i := nd.parent, nd.prefix % SLOTS;
      && p in F.nodes && F.nodes[p].level == nd.level + 1 && nd == ChildOf(F, p, i) && 1 <= nd.level
      && (F.nodes[p].level == 4 ==> F.nodes[p] == Node(Space(p), 4, 0, p))
      && Slot(p, i) < |mem| && IsPointer(mem[Slot(p, i)], nd.level + 1) && FrameOf(mem[Slot(p, i)]) == g
  {
    assert FrameOk(mem, F, g) && ParentOk(mem, F, g);
    var p, i := F.nodes[g].parent, F.nodes[g].prefix % SLOTS;
    assert FrameOk(mem, F, p) && EntryOk(mem, F, p, i);
  }

  /** A present kernel entry of two roots leads to the same table. */
  lemma SharedEntry(mem: seq<Word>, F: Forest, r: nat, i: nat)
    requires Valid(mem, F) && IsRoot(F, r) && KERNEL_SLOT <= i < SLOTS && Slot(r, i) < |mem| && Present(mem[Slot(r, i)])
    ensures IsPointer(mem[Slot(r, i)], 4) && FrameOf(mem[Slot(r, i)]) in F.nodes
    ensures F.nodes[FrameOf(mem[Slot(r, i)])] == Node(Kernel, 3, i, F.kroot)
    ensures Writable(mem[Slot(r, i)]) && UserMode(mem[Slot(r, i)]) == F.user
  {
    assert FrameOk(mem, F, r) && EntryOk(mem, F, r, i);
  }

  /** A table below a shared entry hangs in the entry of `r` as well. */
  lemma SharedParent(mem: seq<Word>, F: Forest, r: nat, g: nat)
    requires Valid(mem, F) && IsRoot(F, r) && g in ViewOf(mem, F, r).nodes
    requires F.nodes[g].owner.Kernel? && F.nodes[g].level == 3
    ensures ParentOk(mem, ViewOf(mem, F, r), g)
  {
    hide Valid, ParentOk;
    ParentIs(mem, F, g);
    var i := F.nodes[g].prefix;
    assert KERNEL_SLOT <= i < SLOTS && TopSlot(3, i) == i && i % SLOTS == i;
    SharedEntry(mem, F, r, i);
    SameTable(mem, F, g, FrameOf(mem[Slot(r, i)]));
    RootInView(mem, F, r);
    HangsAt(mem, ViewOf(mem, F, r), r, g, i);
  }

  lemma HangsAt(mem: seq<Word>, V: Forest, p: nat, g: nat, i: nat)
    requires g in V.nodes && p in V.nodes && V.nodes[g].parent == p && V.nodes[p].level == V.nodes[g].level + 1
    requires V.nodes[g].prefix % SLOTS == i && Slot(p, i) < |mem|
    requires IsPointer(mem[Slot(p, i)], V.nodes[g].level + 1) && FrameOf(mem[Slot(p, i)]) == g
    ensures ParentOk(mem, V, g)
  {}

  lemma ViewParent(mem: seq<Word>, F: Forest, r: nat, g: nat)
    requires Valid(mem, F) && IsRoot(F, r) && g in ViewOf(mem, F, r).nodes && F.nodes[g].level < 4
    ensures ParentOk(mem, ViewOf(mem, F, r), g)
  {
    hide Valid, ParentOk;
    var nd := F.nodes[g];
    ParentIs(mem, F, g);
    if nd.owner.Kernel? && nd.level == 3 {
      SharedParent(mem, F, r, g);
    } else {
      var p, i := nd.parent, nd.prefix % SLOTS;
      PrefixSplit(F.nodes[p].prefix, i);
      if nd.owner.Kernel? { assert TopSlot(nd.level, nd.prefix) == TopSlot(nd.level + 1, F.nodes[p].prefix); }
      HangsAt(mem, ViewOf(mem, F, r), p, g, i);
    }
  }

  lemma SameTable(mem: seq<Word>, F: Forest, g: nat, h: nat)
    requires Valid(mem, F) && g in F.nodes && h in F.nodes && SameKey(F.nodes[g], F.nodes[h])
    ensures g == h
  {}

  /** What a pointer of a reached table leads to is reached. */
  lemma ChildReached(mem: seq<Word>, F: Forest, r: nat, f: nat, i: nat)
    requires Valid(mem, F) && IsRoot(F, r) && f in ViewOf(mem, F, r).nodes && i < SLOTS && Slot(f, i) < |mem|
    requires IsPointer(mem[Slot(f, i)], F.nodes[f].level)
    ensures var c := FrameOf(mem[Slot(f, i)]);
      && c in F.nodes && F.nodes[c] == ChildOf(F, f, i) && Reached(mem, r, F.nodes[c])
      && Writable(mem[Slot(f, i)]) && UserMode(mem[Slot(f, i)]) == F.user
  {
    hide ParentOk;
    assert FrameOk(mem, F, f) && EntryOk(mem, F, f, i);
    if F.nodes[f].level < 4 { TopOfChild(F.nodes[f].prefix, F.nodes[f].level, i); }
  }

  lemma ViewEntry(mem: seq<Word>, F: Forest, r: nat, f: nat, i: nat)
    requires Valid(mem, F) && IsRoot(F, r) && f in ViewOf(mem, F, r).nodes && i < SLOTS && Slot(f, i) < |mem|
    ensures EntryOk(mem, ViewOf(mem, F, r), f, i)
  {
    hide Valid, Reached;
    TopIsSmall(mem, F, r, f, i);
    if IsPointer(mem[Slot(f, i)], F.nodes[f].level) { ChildReached(mem, F, r, f, i); }
  }

  lemma TopIsSmall(mem: seq<Word>, F: Forest, r: nat, f: nat, i: nat)
    requires Valid(mem, F) && IsRoot(F, r) && f in ViewOf(mem, F, r).nodes && i < SLOTS && Slot(f, i) < |mem|
    ensures F.nodes[f].level == 4 ==> f == r && (Present(mem[Slot(f, i)]) ==> !Large(mem[Slot(f, i)]))
  {
    assert FrameOk(mem, F, f) && EntryOk(mem, F, f, i);
  }

  /** What `r` reaches is a well-formed tree whose only root is `r`, so that `r` may gain tables anywhere. */
  lemma ViewIsValid(mem: seq<Word>, F: Forest, r: nat)
    requires Valid(mem, F) && IsRoot(F, r)
    ensures Valid(mem, ViewOf(mem, F, r))
    ensures forall q | IsRoot(ViewOf(mem, F, r), q) :: q == r
  {
    hide FrameOk, ParentOk, EntryOk, Reached;
    var V := ViewOf(mem, F, r);
    forall f | f in V.nodes ensures FrameOk(mem, V, f) && Slot(f, SLOTS) <= |mem| { ViewFrame(mem, F, r, f); }
    forall f | f in V.nodes && V.nodes[f].level < 4 ensures ParentOk(mem, V, f) { ViewParent(mem, F, r, f); }
    forall f, i: nat | f in V.nodes && i < SLOTS ensures Slot(f, i) < |mem| && EntryOk(mem, V, f, i) {
      ViewFrame(mem, F, r, f);
      ViewEntry(mem, F, r, f, i);
    }
    RootInView(mem, F, r);
    forall q | IsRoot(V, q) ensures q == r { OtherRoot(mem, F, r, q); }
  }

  lemma ViewFrame(mem: seq<Word>, F: Forest, r: nat, f: nat)
    requires Valid(mem, F) && f in ViewOf(mem, F, r).nodes
    ensures FrameOk(mem, ViewOf(mem, F, r), f) && Slot(f, SLOTS) <= |mem|
  {
    assert FrameOk(mem, F, f);
  }

  lemma RootInView(mem: seq<Word>, F: Forest, r: nat)
    requires Valid(mem, F) && IsRoot(F, r)
    ensures IsRoot(ViewOf(mem, F, r), r)
  {
    assert FrameOk(mem, F, r);
  }

  lemma OtherRoot(mem: seq<Word>, F: Forest, r: nat, q: nat)
    requires Valid(mem, F) && IsRoot(F, q) && q in ViewOf(mem, F, r).nodes
    ensures q == r
  {
    assert FrameOk(mem, F, q);
  }

  // A page behind an absent entry.

  /** The tables that `r` does not reach keep their words. */
  ghost predicate OthersKept(mem: seq<Word>, mem': seq<Word>, F: Forest, r: nat) {
    && |mem'| == |mem|
    && forall g, i: nat | g in F.nodes && !Reached(mem, r, F.nodes[g]) && i < SLOTS && Slot(g, i) < |mem| ::
         mem'[Slot(g, i)] == mem[Slot(g, i)]
  }

  lemma OthersAreKept(mem: seq<Word>, F: Forest, free: set<nat>, mem': seq<Word>, V': Forest, free': set<nat>,
                      r: nat, n: nat, level: nat)
    requires Maintains(mem, ViewOf(mem, F, r), free, mem', V', free', r, n, level) && free !! F.nodes.Keys
    ensures OthersKept(mem, mem', F, r)
  {
    hide Valid, Reached, NewTablesServe, FramesFit, TopKept;
    forall g, i: nat | g in F.nodes && !Reached(mem, r, F.nodes[g]) && i < SLOTS && Slot(g, i) < |mem|
      ensures mem'[Slot(g, i)] == mem[Slot(g, i)]
    {
      assert Slot(g, i) / SLOTS == g && g !in V'.nodes.Keys;
    }
  }

  lemma ChildHidden(mem: seq<Word>, F: Forest, r: nat, f: nat, n: nat)
    requires Valid(mem, F) && f in F.nodes && 1 <= F.nodes[f].level < 4 && Serves(F, f, n) && !Reached(mem, r, F.nodes[f])
    ensures var s := Slot(f, IndexAt(F.nodes[f].level, n)); s < |mem|
    ensures var e, level := mem[Slot(f, IndexAt(F.nodes[f].level, n))], F.nodes[f].level;
      IsPointer(e, level) ==>
        && FrameOf(e) in F.nodes && F.nodes[FrameOf(e)].level == level - 1 && 1 <= level - 1
        && Serves(F, FrameOf(e), n) && !Reached(mem, r, F.nodes[FrameOf(e)])
  {
    hide Valid, Block, IndexAt;
    Child(mem, F, f, n);
    TopOfChild(F.nodes[f].prefix, F.nodes[f].level, IndexAt(F.nodes[f].level, n));
  }

  lemma {:induction false} HiddenWalk(mem: seq<Word>, mem': seq<Word>, F: Forest, r: nat, f: nat, n: nat)
    requires Valid(mem, F) && f in F.nodes && 1 <= F.nodes[f].level < 4 && Serves(F, f, n) && !Reached(mem, r, F.nodes[f])
    requires OthersKept(mem, mem', F, r)
    ensures WalkFrom(mem', f, F.nodes[f].level, n) == WalkFrom(mem, f, F.nodes[f].level, n)
    decreases F.nodes[f].level
  {
    hide Valid, Reached, Serves, IndexAt;
    var level := F.nodes[f].level;
    ChildHidden(mem, F, r, f, n);
    var s := Slot(f, IndexAt(level, n));
    assert mem'[s] == mem[s];
    if IsPointer(mem[s], level) { HiddenWalk(mem, mem', F, r, FrameOf(mem[s]), n); }
  }

  /** A root's walk goes on below its top-level entry. */
  lemma TopWalk(mem: seq<Word>, q: nat, m: nat)
    requires Slot(q, IndexAt(4, m)) < |mem|
    ensures var e := mem[Slot(q, IndexAt(4, m))];
      WalkPage(mem, q, m) == if IsPointer(e, 4) then Restrict(WalkFrom(mem, FrameOf(e), 3, m), Writable(e), UserMode(e)) else None
  {}

  /** Two roots that both have a kernel entry translate its pages alike. */
  lemma SharedWalk(mem: seq<Word>, mem': seq<Word>, F: Forest, r: nat, q: nat, m: nat)
    requires Valid(mem, F) && IsRoot(F, r) && IsRoot(F, q) && m < PAGES && KernelHalf(m)
    requires Slot(r, IndexAt(4, m)) < |mem| && Slot(q, IndexAt(4, m)) < |mem| == |mem'|
    requires mem'[Slot(r, IndexAt(4, m))] == mem[Slot(r, IndexAt(4, m))] && mem'[Slot(q, IndexAt(4, m))] == mem[Slot(q, IndexAt(4, m))]
    requires Present(mem[Slot(r, IndexAt(4, m))]) && Present(mem[Slot(q, IndexAt(4, m))])
    ensures WalkPage(mem', q, m) == WalkPage(mem', r, m)
  {
    hide Valid, WalkFrom, IndexAt;
    var i := IndexAt(4, m);
    SharedEntry(mem, F, r, i);
    SharedEntry(mem, F, q, i);
    SameTable(mem, F, FrameOf(mem[Slot(r, i)]), FrameOf(mem[Slot(q, i)]));
    TopWalk(mem', q, m);
    TopWalk(mem', r, m);
  }

  lemma OtherRootHidden(mem: seq<Word>, F: Forest, r: nat, q: nat, i: nat)
    requires Valid(mem, F) && IsRoot(F, q) && q != r && i < SLOTS
    ensures !Reached(mem, r, F.nodes[q]) && Slot(q, i) < |mem|
    ensures var e := mem[Slot(q, i)];
      IsPointer(e, 4) && (i < KERNEL_SLOT || Slot(r, i) >= |mem| || !Present(mem[Slot(r, i)])) ==>
        FrameOf(e) in F.nodes && F.nodes[FrameOf(e)].level == 3 && !Reached(mem, r, F.nodes[FrameOf(e)])
  {
    assert FrameOk(mem, F, q) && EntryOk(mem, F, q, i);
  }

  /** If the page's entry is absent in `r`, every other root translates every page as before. */
  lemma OtherWalk(mem: seq<Word>, F: Forest, free: set<nat>, mem': seq<Word>, V': Forest, free': set<nat>,
                  r: nat, n: nat, level: nat, frame: nat, flags: EntryFlags, q: nat, m: nat)
    requires Valid(mem, F) && IsRoot(F, r) && n < PAGES && !Present(EntryOn(mem, r, 4, n)) && free !! F.nodes.Keys
    requires Maintains(mem, ViewOf(mem, F, r), free, mem', V', free', r, n, level) && 1 <= level <= 3
    requires MapsBlock(mem, mem', ViewOf(mem, F, r), r, n, level, frame, flags)
    requires IsRoot(F, q) && q != r && m < PAGES
    ensures WalkPage(mem', q, m) == WalkPage(mem, q, m)
  {
    hide Valid, WalkFrom, Reached, IndexAt, MapsBlock, Maintains, EntryOn;
    var i := IndexAt(4, m);
    OthersAreKept(mem, F, free, mem', V', free', r, n, level);
    OtherRootHidden(mem, F, r, q, i);
    RootFrame(mem, F, r);
    assert mem'[Slot(q, i)] == mem[Slot(q, i)];
    TopWalk(mem, q, m);
    TopWalk(mem', q, m);
    var e := mem[Slot(q, i)];
    if IsPointer(e, 4) {
      if i >= KERNEL_SLOT && Present(mem[Slot(r, i)]) {
        OwnWalk(mem, F, free, mem', V', free', r, n, level, frame, flags, m);
        SharedWalk(mem, mem, F, r, q, m);
        SharedWalk(mem, mem', F, r, q, m);
      } else {
        ServesChild(mem, F, q, m);
        HiddenWalk(mem, mem', F, r, FrameOf(e), m);
      }
    }
  }

  lemma ServesChild(mem: seq<Word>, F: Forest, q: nat, m: nat)
    requires Valid(mem, F) && IsRoot(F, q) && m < PAGES
    ensures Slot(q, IndexAt(4, m)) < |mem|
    ensures var e := mem[Slot(q, IndexAt(4, m))];
      IsPointer(e, 4) ==> FrameOf(e) in F.nodes && F.nodes[FrameOf(e)].level == 3 && Serves(F, FrameOf(e), m)
  {
    RootServes(mem, F, q, m);
    Child(mem, F, q, m);
  }

  /** Pages behind the entries that `r` has keep their translation in `r`, and so do the entries. */
  lemma OwnWalk(mem: seq<Word>, F: Forest, free: set<nat>, mem': seq<Word>, V': Forest, free': set<nat>,
                r: nat, n: nat, level: nat, frame: nat, flags: EntryFlags, m: nat)
    requires Valid(mem, F) && IsRoot(F, r) && n < PAGES && !Present(EntryOn(mem, r, 4, n)) && m < PAGES
    requires Maintains(mem, ViewOf(mem, F, r), free, mem', V', free', r, n, level) && 1 <= level <= 3
    requires MapsBlock(mem, mem', ViewOf(mem, F, r), r, n, level, frame, flags)
    requires Slot(r, IndexAt(4, m)) < |mem| && Present(mem[Slot(r, IndexAt(4, m))])
    ensures |mem'| == |mem| && mem'[Slot(r, IndexAt(4, m))] == mem[Slot(r, IndexAt(4, m))]
    ensures WalkPage(mem', r, m) == WalkPage(mem, r, m)
  {
    hide Valid, Reached, Block, OnlyTables, NewTablesServe, FramesFit, WalkFrom, ViewOf;
    RootInView(mem, F, r);
    RootServes(mem, F, r, n);
    AbsentWalk(mem, r, 4, n);
    if Block(level, m) == Block(level, n) { SmallerBlock(level, 4, m, n); }
  }

  // Any page of any table.

  ghost predicate EntryAbsent(mem: seq<Word>, F: Forest, r: nat, n: nat) {
    KernelHalf(n) && r != F.kroot && !Present(EntryOn(mem, r, 4, n))
  }

  /** The tables that mapping page `n` of `r` works on: all of them, or those that `r` reaches when
      it has to make kernel-half tables of its own. */
  ghost function Scope(mem: seq<Word>, F: Forest, r: nat, n: nat): Forest {
    if EntryAbsent(mem, F, r, n) then ViewOf(mem, F, r) else F
  }

  lemma ScopeFits(mem: seq<Word>, F: Forest, free: set<nat>, r: nat, n: nat)
    requires Valid(mem, F) && IsRoot(F, r) && n < PAGES && F.user && FramesFit(mem, F, free)
    ensures Request(mem, Scope(mem, F, r, n), r, n) && Scope(mem, F, r, n).user
    ensures FramesFit(mem, Scope(mem, F, r, n), free)
  {
    hide Valid, IndexAt, Reached;
    if EntryAbsent(mem, F, r, n) {
      ViewIsValid(mem, F, r);
      RootInView(mem, F, r);
    }
  }

  ghost predicate ReferenceKept(mem: seq<Word>, mem': seq<Word>, F: Forest) {
    forall m: nat | m < PAGES :: WalkPage(mem', F.kroot, m) == WalkPage(mem, F.kroot, m)
  }

  /** The reference table maps the whole block just as asked. */
  ghost predicate MappedSo(mem: seq<Word>, F: Forest, n: nat, level: nat, frame: nat, flags: EntryFlags)
    requires 1 <= level <= 3
  {
    forall m: nat | m < PAGES && Block(level, m) == Block(level, n) ::
      WalkPage(mem, F.kroot, m) == Some(PageOf(frame, level, m, flags, F.user))
  }

  lemma ReferenceHasIt(mem: seq<Word>, F: Forest, r: nat, n: nat)
    requires Valid(mem, F) && IsRoot(F, r) && n < PAGES && KernelHalf(n) && Present(EntryOn(mem, r, 4, n))
    ensures Present(EntryOn(mem, F.kroot, 4, n)) && WalkPage(mem, r, n) == WalkPage(mem, F.kroot, n)
  {
    hide Valid, WalkFrom, EntryOn;
    if !Present(EntryOn(mem, F.kroot, 4, n)) { AbsentEverywhere(mem, F, n, r); }
    KernelHalfView(mem, F, r, n);
  }

  lemma SharedEffect(mem: seq<Word>, mem': seq<Word>, F: Forest, r: nat, n: nat, level: nat, frame: nat, flags: EntryFlags, m: nat)
    requires 1 <= level <= 3 && MapsBlock(mem, mem', F, r, n, level, frame, flags) && IsRoot(F, F.kroot) && m < PAGES
    ensures WalkPage(mem', F.kroot, m) ==
      if Block(level, m) == Block(level, n) && Shares(mem, F.kroot, r, n) then Some(PageOf(frame, level, m, flags, F.user))
      else if Emptied(mem, r, n, level, F.kroot, m) then None
      else WalkPage(mem, F.kroot, m)
  {
    hide WalkFrom, Shares, Block, Emptied;
  }

  /** The page's entry is shared: the reference table stays if and only if it maps the block so already. */
  lemma SharedKeptIff(mem: seq<Word>, mem': seq<Word>, F: Forest, r: nat, n: nat, level: nat, frame: nat, flags: EntryFlags)
    requires Valid(mem, F) && IsRoot(F, r) && r != F.kroot && n < PAGES && 1 <= level <= 3
    requires MapsBlock(mem, mem', F, r, n, level, frame, flags) && KernelHalf(n) && Present(EntryOn(mem, r, 4, n))
    ensures ReferenceKept(mem, mem', F) <==> MappedSo(mem, F, n, level, frame, flags)
  {
    hide Valid, WalkFrom, EntryOn, Block, MapsBlock, IndexAt;
    ValidGives(mem, F);
    ReferenceHasIt(mem, F, r, n);
    forall m: nat | m < PAGES
      ensures WalkPage(mem', F.kroot, m) ==
        if Block(level, m) == Block(level, n) then Some(PageOf(frame, level, m, flags, F.user))
        else if Emptied(mem, r, n, level, F.kroot, m) then None
        else WalkPage(mem, F.kroot, m)
    {
      SharedEffect(mem, mem', F, r, n, level, frame, flags, m);
    }
  }

  lemma UserKept(mem: seq<Word>, mem': seq<Word>, F: Forest, r: nat, n: nat, level: nat, frame: nat, flags: EntryFlags)
    requires 1 <= level <= 3 && MapsBlock(mem, mem', F, r, n, level, frame, flags)
    requires IsRoot(F, F.kroot) && r != F.kroot && !KernelHalf(n)
    ensures ReferenceKept(mem, mem', F)
  {
    hide WalkFrom, IndexAt;
  }

  /** A call for a process leaves the reference table alone if and only if the page is a user page,
      or the process has no top-level entry for it, or the block was mapped just so before. */
  lemma ReferenceKeptIff(mem: seq<Word>, F: Forest, free: set<nat>, mem': seq<Word>, F': Forest, free': set<nat>,
                         r: nat, n: nat, level: nat, frame: nat, flags: EntryFlags)
    requires Valid(mem, F) && IsRoot(F, r) && r != F.kroot && n < PAGES && 1 <= level <= 3 && FramesFit(mem, F, free)
    requires Maintains(mem, Scope(mem, F, r, n), free, mem', F', free', r, n, level)
    requires MapsBlock(mem, mem', Scope(mem, F, r, n), r, n, level, frame, flags)
    ensures ReferenceKept(mem, mem', F) <==>
            !KernelHalf(n) || !Present(EntryOn(mem, r, 4, n)) || MappedSo(mem, F, n, level, frame, flags)
  {
    hide Valid, WalkFrom, EntryOn, MapsBlock, Maintains, MappedSo, KernelHalf, ViewOf;
    ValidGives(mem, F);
    assert free !! F.nodes.Keys;
    if !KernelHalf(n) {
      UserKept(mem, mem', F, r, n, level, frame, flags);
    } else if Present(EntryOn(mem, r, 4, n)) {
      SharedKeptIff(mem, mem', F, r, n, level, frame, flags);
    } else {
      forall m: nat | m < PAGES ensures WalkPage(mem', F.kroot, m) == WalkPage(mem, F.kroot, m) {
        OtherWalk(mem, F, free, mem', F', free', r, n, level, frame, flags, F.kroot, m);
      }
    }
  }

  /** For instance, a call for the first page of the kernel text in a space created after boot makes
      the reference table read another frame there. */
  lemma KernelTextExample(mem: seq<Word>, F: Forest, free: set<nat>, pool: set<nat>, first: nat, text: nat, blocks: nat,
                          mem1: seq<Word>, c: nat, free1: set<nat>, mem2: seq<Word>, F2: Forest, free2: set<nat>,
                          frame: nat, flags: EntryFlags)
    requires Booted(mem, F, free, pool, first, text, blocks) && text > 0 && frame != first
    requires Cloned(mem, mem1, F, c) && FramesFit(mem1, AddRoot(F, c), free1)
    requires Maintains(mem1, Scope(mem1, AddRoot(F, c), c, TEXT_PAGE), free1, mem2, F2, free2, c, TEXT_PAGE, 1)
    requires MapsBlock(mem1, mem2, Scope(mem1, AddRoot(F, c), c, TEXT_PAGE), c, TEXT_PAGE, 1, frame, flags)
    ensures Page(KERNEL_TEXT_START) == TEXT_PAGE && !ReferenceKept(mem1, mem2, AddRoot(F, c))
  {
    hide Valid, WalkFrom, KernelOnly, Maintains, MapsBlock, Cloned, EntryOn;
    ClonedIsValid(mem, mem1, F, c);
    ClonedWalks(mem, mem1, F, c);
    ClonedNew(mem, mem1, F, c);
    ValidGives(mem, F);
    TextNumbers(0);
    EntryBehind(mem1, AddRoot(F, c), c, TEXT_PAGE);
    ReferenceKeptIff(mem1, AddRoot(F, c), free1, mem2, F2, free2, c, TEXT_PAGE, 1, frame, flags);
  }

  lemma ClonedNew(mem: seq<Word>, mem': seq<Word>, F: Forest, c: nat)
    requires Cloned(mem, mem', F, c)
    ensures c !in F.nodes
  {}

  /** A mapped page has a top-level entry. */
  lemma EntryBehind(mem: seq<Word>, F: Forest, r: nat, n: nat)
    requires Valid(mem, F) && IsRoot(F, r) && n < PAGES && WalkPage(mem, r, n).Some?
    ensures Present(EntryOn(mem, r, 4, n))
  {
    RootServes(mem, F, r, n);
  }

  /** `map_raw_user`, for any table of a process and any address. */
  method MapRawUser(pm: PhysicalMemory, fa: BitmapFrameAllocator, ghost F: Forest, table: nat,
                    vaddr: nat, paddr: nat, pageType: PageType, flags: RegionFlags)
    returns (ok: bool, ghost F': Forest)
    requires pm.Valid() && fa.Valid() && {pm as object, fa} !! fa.Repr && pm as object != fa
    requires table % PAGE_SIZE == 0 && Forests.Valid(pm.words, F) && IsRoot(F, table / PAGE_SIZE) && F.user
    requires FramesFit(pm.words, F, fa.free) && table / PAGE_SIZE != F.kroot
    requires paddr % (PAGE_SIZE * Reach(pageType.Level())) == 0 && paddr / PAGE_SIZE < FRAME_LIMIT
    modifies pm, fa`free, fa.Repr
    ensures pm.Valid() && fa.Valid() && fa.Repr == old(fa.Repr) && fa.regions == old(fa.regions)
    ensures var scope := Scope(old(pm.words), F, table / PAGE_SIZE, Page(vaddr));
      && Maintains(old(pm.words), scope, old(fa.free), pm.words, F', fa.free, table / PAGE_SIZE, Page(vaddr), pageType.Level())
      && (ok ==> MapsBlock(old(pm.words), pm.words, scope, table / PAGE_SIZE, Page(vaddr), pageType.Level(),
                           paddr / PAGE_SIZE, PageFlags(flags)))
    ensures ok <==> Possible(old(pm.words), table / PAGE_SIZE, Page(vaddr), pageType.Level(), |old(fa.free)|)
    ensures ok ==> |fa.free| + MissingTables(old(pm.words), table / PAGE_SIZE, Page(vaddr), pageType.Level()) == |old(fa.free)|
    ensures ok ==> (ReferenceKept(old(pm.words), pm.words, F) <==>
      || !KernelHalf(Page(vaddr)) || !Present(EntryOn(old(pm.words), table / PAGE_SIZE, 4, Page(vaddr)))
      || MappedSo(old(pm.words), F, Page(vaddr), pageType.Level(), paddr / PAGE_SIZE, PageFlags(flags)))
  {
    hide *;
    ghost var r, n, words, free := FrameOfTable(table), Page(vaddr), pm.words, fa.free;
    ScopeFits(words, F, free, r, n);
    ok, F' := MapRaw(pm, fa, Scope(words, F, r, n), table, vaddr, paddr, pageType, flags);
    if ok {
      ReferenceKeptIff(words, F, free, pm.words, F', fa.free, r, n, pageType.Level(), FrameOfTable(paddr), PageFlags(flags));
    }
  }
}
