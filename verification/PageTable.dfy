/** Mapping a page (kernel/src/arch/x86_64/page_table.rs): the code that walks the table in
    physical memory, creates missing tables and writes the leaf, proved against the
    processor's translation of every page from every root. */
module PageTables {
  import opened Wrappers
  import opened Entries
  import opened Walks
  import opened Forests
  import opened Paths
  import opened Bits
  import opened PhysMem
  import opened FrameAlloc

  datatype PageType = Page4K | Page2M | Page1G {
    /** Level of the table whose entry is the leaf. */
    function Level(): (l: nat)
      ensures 1 <= l <= 3
    {
      match this
      case Page4K => 1
      case Page2M => 2
      case Page1G => 3
    }
  }

  // What mapping a block means for the translations.

  ghost predicate Target(mem: seq<Word>, root: nat, n: nat, level: nat, r: nat, m: nat)
    requires 1 <= level <= 4
  {
    Block(level, m) == Block(level, n) && Shares(mem, r, root, n)
  }

  /** The page lies in a larger leaf that covers the target and is broken up. */
  ghost predicate Emptied(mem: seq<Word>, root: nat, n: nat, level: nat, r: nat, m: nat) {
    var leaf := LeafLevel(mem, root, n);
    1 <= level < leaf <= 4 && Target(mem, root, n, leaf, r, m)
  }

  ghost predicate OnlyEmptied(mem: seq<Word>, mem': seq<Word>, F: Forest, root: nat, n: nat, level: nat) {
    forall r, m: nat | IsRoot(F, r) && m < PAGES ::
      WalkPage(mem', r, m) == if Emptied(mem, root, n, level, r, m) then None else WalkPage(mem, r, m)
  }

  ghost predicate Unchanged(mem: seq<Word>, mem': seq<Word>, F: Forest) {
    forall r, m: nat | IsRoot(F, r) && m < PAGES :: WalkPage(mem', r, m) == WalkPage(mem, r, m)
  }

  function PageOf(frame: nat, level: nat, m: nat, flags: EntryFlags, user: bool): Mapping
    requires 1 <= level <= 4
  {
    Mapping(frame + m % Reach(level), level, flags.write, flags.user && user, flags.cacheDisable)
  }

  ghost predicate MapsBlock(mem: seq<Word>, mem': seq<Word>, F: Forest, root: nat, n: nat, level: nat,
                            frame: nat, flags: EntryFlags)
    requires 1 <= level <= 3
  {
    forall r, m: nat | IsRoot(F, r) && m < PAGES ::
      WalkPage(mem', r, m) ==
        if Target(mem, root, n, level, r, m) then Some(PageOf(frame, level, m, flags, F.user))
        else if Emptied(mem, root, n, level, r, m) then None
        else WalkPage(mem, r, m)
  }

  // The loop that creates missing tables.

  lemma AbsentReads(mem: seq<Word>, F: Forest, r: nat, m: nat, g: nat, i: nat)
    requires Valid(mem, F) && IsRoot(F, r) && m < PAGES && g in F.nodes && i < SLOTS
    requires Slot(g, i) < |mem| && !Present(mem[Slot(g, i)])
    ensures 1 <= F.nodes[g].level <= 4
    ensures ReadsEntry(mem, F, r, m, g, i) ==> WalkPage(mem, r, m) == None
  {
    hide Valid, Visits, Sees, WalkFrom, Block, IndexAt;
    VisitsIffSees(mem, F, r, m, g);
    RootServes(mem, F, r, m);
    if ReadsEntry(mem, F, r, m, g, i) {
      ReaderServed(F, m, g, i);
      WalkThrough(mem, F, r, m, g);
      AbsentWalk(mem, g, F.nodes[g].level, m);
    }
  }

  /** A page whose walk reads entry `i` of table `g` is served by `g`, and its index there is `i`. */
  lemma ReaderServed(F: Forest, m: nat, g: nat, i: nat)
    requires g in F.nodes && 1 <= F.nodes[g].level <= 4 && i < SLOTS
    requires Block(F.nodes[g].level, m) == F.nodes[g].prefix * SLOTS + i
    ensures Serves(F, g, m) && IndexAt(F.nodes[g].level, m) == i
  {
    hide Block, IndexAt;
    BlockSplit(F.nodes[g].level, m);
    PrefixSplit(F.nodes[g].prefix, i);
    IndexIsLow(F.nodes[g].level, m);
    PrefixSplit(Block(F.nodes[g].level + 1, m), IndexAt(F.nodes[g].level, m));
  }

  lemma IndexIsLow(level: nat, n: nat)
    requires 1 <= level <= 4
    ensures IndexAt(level, n) < SLOTS
  {}

  lemma AbsentWalk(mem: seq<Word>, g: nat, level: nat, m: nat)
    requires 1 <= level <= 4 && Slot(g, IndexAt(level, m)) < |mem| && !Present(mem[Slot(g, IndexAt(level, m))])
    ensures WalkFrom(mem, g, level, m) == None
  {}

  /** Top-level entries stay as they are, except that an absent entry of `root` on the way to
      page `n` may be filled. */
  ghost predicate TopKept(mem: seq<Word>, mem': seq<Word>, F: Forest, root: nat, n: nat) {
    forall r, i: nat | IsRoot(F, r) && i < SLOTS && Slot(r, i) < |mem| &&
                       (r != root || i != IndexAt(4, n) || Present(mem[Slot(r, i)])) ::
      |mem'| == |mem| && mem'[Slot(r, i)] == mem[Slot(r, i)]
  }

  lemma SameSharers(mem: seq<Word>, mem': seq<Word>, F: Forest, root: nat, n: nat, r: nat)
    requires |mem'| == |mem| && IsRoot(F, r) && TopKept(mem, mem', F, root, n)
    ensures Shares(mem', r, root, n) <==> Shares(mem, r, root, n)
  {}

  ghost predicate EmptyTable(mem: seq<Word>, f: nat) {
    Slot(f, SLOTS) <= |mem| && forall j: nat | j < SLOTS :: mem[Slot(f, j)] == 0
  }

  /** The state of the loop once `tables` is known: either nothing was written yet, or the
      last table is new and the only effect so far is on a larger leaf. */
  ghost predicate Progress(mem0: seq<Word>, F0: Forest, mem: seq<Word>, F: Forest,
                           root: nat, n: nat, level: nat, tables: seq<nat>)
  {
    var path := PathFrom(mem0, root, 4, n);
    && Valid(mem, F) && Extends(F0, F) && |mem| == |mem0| && Chain(mem, F, root, n, tables)
    && TopKept(mem0, mem, F0, root, n)
    && (|tables| <= |path| ==> mem == mem0 && F == F0 && tables == path[..|tables|])
    && (|tables| > |path| ==> OnlyEmptied(mem0, mem, F0, root, n, level) && EmptyTable(mem, tables[|tables| - 1]))
  }

  ghost predicate Request(mem: seq<Word>, F: Forest, root: nat, n: nat) {
    && Valid(mem, F) && IsRoot(F, root) && n < PAGES
    && (KernelHalf(n) ==> root == F.kroot || Present(EntryOn(mem, root, 4, n)))
  }

  lemma StartProgress(mem: seq<Word>, F: Forest, root: nat, n: nat, level: nat)
    requires Request(mem, F, root, n)
    ensures Progress(mem, F, mem, F, root, n, level, [root])
  {
    PathIsChain(mem, F, root, n);
    assert FrameOk(mem, F, root);
    assert Link(mem, F, root, n, [root], 0);
  }

  lemma LinkOfPrefix(mem: seq<Word>, F: Forest, root: nat, n: nat, path: seq<nat>, k: nat, j: nat)
    requires j < k <= |path| <= 4 && Link(mem, F, root, n, path, j)
    ensures Link(mem, F, root, n, path[..k], j)
  {}

  lemma FollowProgress(mem: seq<Word>, F: Forest, root: nat, n: nat, level: nat, tables: seq<nat>)
    requires Request(mem, F, root, n) && Progress(mem, F, mem, F, root, n, level, tables)
    requires |tables| < |PathFrom(mem, root, 4, n)| && tables == PathFrom(mem, root, 4, n)[..|tables|]
    ensures Progress(mem, F, mem, F, root, n, level, tables + [PathFrom(mem, root, 4, n)[|tables|]])
  {
    hide Valid, Link, PathFrom, TopKept, OnlyEmptied, EmptyTable;
    var path := PathFrom(mem, root, 4, n);
    var k := |tables|;
    PathIsChain(mem, F, root, n);
    var longer := path[..k + 1];
    assert tables + [path[k]] == longer;
    forall j | 0 <= j < k + 1 ensures Link(mem, F, root, n, longer, j) {
      LinkOfPrefix(mem, F, root, n, path, k + 1, j);
    }
  }

  /** The entry at the end of the chain when a table is missing behind it. */
  lemma MissingTable(mem0: seq<Word>, F0: Forest, mem: seq<Word>, F: Forest,
                     root: nat, n: nat, level: nat, tables: seq<nat>)
    requires Request(mem0, F0, root, n) && Progress(mem0, F0, mem, F, root, n, level, tables)
    requires |tables| >= |PathFrom(mem0, root, 4, n)| && |tables| < 4
    ensures Link(mem, F, root, n, tables, |tables| - 1)
    ensures EmptySlot(mem, F, tables[|tables| - 1], IndexAt(5 - |tables|, n))
    ensures |tables| == 1 && KernelHalf(n) ==> root == F.kroot && !Present(EntryOn(mem, root, 4, n))
    ensures |tables| > |PathFrom(mem0, root, 4, n)| ==> !Present(EntryOn(mem, tables[|tables| - 1], 5 - |tables|, n))
  {
    var k := |tables|;
    var f, i := tables[k - 1], IndexAt(5 - k, n);
    LastEntry(mem0, F0, mem, F, root, n, level, tables);
    assert Link(mem, F, root, n, tables, k - 1);
    EntryBelowTop(mem, F, f, i);
  }

  /** Beyond the path of the walk the chain ends at no pointer, and at nothing once a table was added. */
  lemma LastEntry(mem0: seq<Word>, F0: Forest, mem: seq<Word>, F: Forest,
                  root: nat, n: nat, level: nat, tables: seq<nat>)
    requires Request(mem0, F0, root, n) && Progress(mem0, F0, mem, F, root, n, level, tables)
    requires |tables| >= |PathFrom(mem0, root, 4, n)|
    ensures !IsPointer(EntryOn(mem, tables[|tables| - 1], 5 - |tables|, n), 5 - |tables|)
    ensures |tables| > |PathFrom(mem0, root, 4, n)| ==> !Present(EntryOn(mem, tables[|tables| - 1], 5 - |tables|, n))
  {
    if |tables| == |PathFrom(mem0, root, 4, n)| {
      PathIsChain(mem0, F0, root, n);
    } else {
      assert mem[Slot(tables[|tables| - 1], IndexAt(5 - |tables|, n))] == 0;
    }
  }

  lemma InstallKeepsTop(mem: seq<Word>, F: Forest, root: nat, n: nat, tables: seq<nat>, c: nat, e: Word)
    requires Valid(mem, F) && Chain(mem, F, root, n, tables) && |tables| < 4 && n < PAGES
    requires CanInstall(mem, F, tables[|tables| - 1], IndexAt(5 - |tables|, n), c, e)
    ensures TopKept(mem, ZeroFrame(mem, c)[Slot(tables[|tables| - 1], IndexAt(5 - |tables|, n)) := e], F, root, n)
  {
    var k := |tables|;
    var f, i := tables[k - 1], IndexAt(5 - k, n);
    InstallAgrees(mem, F, f, i, c, e);
    assert Link(mem, F, root, n, tables, k - 1);
    EntryBelowTop(mem, F, f, i);
  }

  /** An entry that is no pointer is either below the top level or absent. */
  lemma EntryBelowTop(mem: seq<Word>, F: Forest, f: nat, i: nat)
    requires Valid(mem, F) && f in F.nodes && i < SLOTS
    ensures Slot(f, i) < |mem|
    ensures F.nodes[f].level == 4 && Present(mem[Slot(f, i)]) ==> IsPointer(mem[Slot(f, i)], 4)
  {
    assert FrameOk(mem, F, f) && EntryOk(mem, F, f, i);
  }

  lemma InstalledPointer(mem: seq<Word>, F: Forest, root: nat, n: nat, tables: seq<nat>, c: nat, e: Word)
    requires Valid(mem, F) && Chain(mem, F, root, n, tables) && |tables| < 4 && n < PAGES
    requires CanInstall(mem, F, tables[|tables| - 1], IndexAt(5 - |tables|, n), c, e)
    ensures Link(mem, F, root, n, tables, |tables| - 1)
    ensures var f, i := tables[|tables| - 1], IndexAt(5 - |tables|, n);
      var mem', F' := ZeroFrame(mem, c)[Slot(f, i) := e], AddTable(F, f, i, c);
      && IsPointer(EntryOn(mem', f, 5 - |tables|, n), 5 - |tables|) && FrameOf(EntryOn(mem', f, 5 - |tables|, n)) == c
      && Extends(F, F') && AgreeExcept(mem, mem', F, f, i)
  {
    hide WalkFrom, FrameOk, ParentOk, ZeroFrame;
    var f, i := tables[|tables| - 1], IndexAt(5 - |tables|, n);
    assert Link(mem, F, root, n, tables, |tables| - 1);
    InstallAgrees(mem, F, f, i, c, e);
  }

  lemma InstallExtendsChain(mem: seq<Word>, F: Forest, root: nat, n: nat, tables: seq<nat>, c: nat, e: Word)
    requires Valid(mem, F) && Chain(mem, F, root, n, tables) && |tables| < 4 && n < PAGES
    requires CanInstall(mem, F, tables[|tables| - 1], IndexAt(5 - |tables|, n), c, e)
    ensures Link(mem, F, root, n, tables, |tables| - 1)
    ensures var f, i := tables[|tables| - 1], IndexAt(5 - |tables|, n);
      Chain(ZeroFrame(mem, c)[Slot(f, i) := e], AddTable(F, f, i, c), root, n, tables + [c])
  {
    hide Valid, Link, CanInstall, ZeroFrame, AddTable, EntryOn, AgreeExcept;
    var f, i := tables[|tables| - 1], IndexAt(5 - |tables|, n);
    InstalledPointer(mem, F, root, n, tables, c, e);
    InstallSlot(mem, F, f, i, c, e);
    var mem', F' := ZeroFrame(mem, c)[Slot(f, i) := e], AddTable(F, f, i, c);
    InstallKeepsValid(mem, F, f, i, c, e);
    forall j | 0 <= j < |tables| ensures Link(mem', F', root, n, tables, j) {
      LinkKept(mem, F, mem', F', root, n, tables, j);
    }
    ChainExtend(mem', F', root, n, tables);
  }

  lemma InstallSlot(mem: seq<Word>, F: Forest, f: nat, i: nat, c: nat, e: Word)
    requires CanInstall(mem, F, f, i, c, e)
    ensures f in F.nodes && F.nodes[f].level > 1 && Slot(c, SLOTS) <= |mem| && Slot(f, i) < |ZeroFrame(mem, c)| == |mem|
  {}

  /** Writing behind the end of a chain keeps its links. */
  lemma LinkKept(mem: seq<Word>, F: Forest, mem': seq<Word>, F': Forest, root: nat, n: nat, tables: seq<nat>, j: nat)
    requires Valid(mem, F) && Chain(mem, F, root, n, tables) && Extends(F, F') && j < |tables|
    requires AgreeExcept(mem, mem', F, tables[|tables| - 1], IndexAt(5 - |tables|, n))
    ensures Link(mem', F', root, n, tables, j)
  {
    hide Valid, Block, IndexAt;
    assert Link(mem, F, root, n, tables, j);
    if j > 0 {
      var p, last := tables[j - 1], |tables| - 1;
      assert Link(mem, F, root, n, tables, j - 1) && Link(mem, F, root, n, tables, last);
      assert F.nodes[p].level == 5 - j && F.nodes[tables[last]].level == 4 - last && p != tables[last];
      IndexIsLow(5 - j, n);
    }
  }

  /** The leaf behind the walk's path, if there is one, is what filling in the first table empties. */
  lemma FirstEmpties(mem: seq<Word>, root: nat, n: nat, level: nat, leaf: nat, r: nat, m: nat)
    requires 1 <= level < leaf <= 4 && (LeafLevel(mem, root, n) == leaf || LeafLevel(mem, root, n) == 0)
    ensures Emptied(mem, root, n, level, r, m) <==>
            LeafLevel(mem, root, n) == leaf && Block(leaf, m) == Block(leaf, n) && Shares(mem, r, root, n)
  {
    hide LeafLevel, Block, Shares;
  }

  lemma ReadersOfEnd(mem0: seq<Word>, F0: Forest, mem: seq<Word>, F: Forest,
                     root: nat, n: nat, level: nat, tables: seq<nat>, r: nat, m: nat)
    requires Request(mem0, F0, root, n) && Progress(mem0, F0, mem, F, root, n, level, tables)
    requires |PathFrom(mem0, root, 4, n)| <= |tables| < 5 - level && 1 <= level && IsRoot(F0, r) && m < PAGES
    ensures Link(mem, F, root, n, tables, |tables| - 1)
    ensures var k := |tables|; var f, i := tables[k - 1], IndexAt(5 - k, n);
      && (ReadsEntry(mem, F, r, m, f, i) <==> Block(5 - k, m) == Block(5 - k, n) && Shares(mem0, r, root, n))
      && (!Present(EntryOn(mem, f, 5 - k, n)) && ReadsEntry(mem, F, r, m, f, i) ==> WalkPage(mem, r, m) == None)
  {
    hide WalkFrom, PathFrom, OnlyEmptied, EmptyTable, ReadsEntry;
    var k := |tables|;
    var f, i := tables[k - 1], IndexAt(5 - k, n);
    MissingTable(mem0, F0, mem, F, root, n, level, tables);
    ChainReaders(mem, F, root, n, tables, k - 1, r, m);
    SameSharers(mem0, mem, F0, root, n, r);
    if !Present(EntryOn(mem, f, 5 - k, n)) { AbsentReads(mem, F, r, m, f, i); }
  }

  lemma EndOfProgress(mem0: seq<Word>, F0: Forest, mem: seq<Word>, F: Forest, root: nat, n: nat, level: nat, tables: seq<nat>)
    requires Request(mem0, F0, root, n) && Progress(mem0, F0, mem, F, root, n, level, tables)
    requires |PathFrom(mem0, root, 4, n)| <= |tables| < 5 - level && 1 <= level
    ensures var k := |tables|; var present := Present(EntryOn(mem, tables[k - 1], 5 - k, n));
      if k > |PathFrom(mem0, root, 4, n)| then !present && OnlyEmptied(mem0, mem, F0, root, n, level)
      else mem == mem0 && LeafLevel(mem0, root, n) == if present then 5 - k else 0
  {
    hide WalkFrom, PathFrom, Valid, OnlyEmptied, LeafLevel, EmptySlot;
    MissingTable(mem0, F0, mem, F, root, n, level, tables);
    LastEntry(mem0, F0, mem, F, root, n, level, tables);
    if |tables| == |PathFrom(mem0, root, 4, n)| { ChainLeafLevel(mem, F, root, n, tables); }
  }

  /** One page's walk when a missing table is filled in. */
  lemma InstallEmpties(mem0: seq<Word>, F0: Forest, mem: seq<Word>, F: Forest,
                       root: nat, n: nat, level: nat, tables: seq<nat>, r: nat, m: nat)
    requires Request(mem0, F0, root, n) && Progress(mem0, F0, mem, F, root, n, level, tables)
    requires |PathFrom(mem0, root, 4, n)| <= |tables| < 5 - level && 1 <= level
    requires IsRoot(F0, r) && m < PAGES
    ensures Link(mem, F, root, n, tables, |tables| - 1)
    ensures (if ReadsEntry(mem, F, r, m, tables[|tables| - 1], IndexAt(5 - |tables|, n)) then None else WalkPage(mem, r, m)) ==
            (if Emptied(mem0, root, n, level, r, m) then None else WalkPage(mem0, r, m))
  {
    hide WalkFrom, PathFrom, Valid, LeafLevel, Block, Shares, IndexAt, ReadsEntry, Emptied, EntryOn, Request, Link, Chain, TopKept;
    ReadersOfEnd(mem0, F0, mem, F, root, n, level, tables, r, m);
    EndOfProgress(mem0, F0, mem, F, root, n, level, tables);
    if |tables| <= |PathFrom(mem0, root, 4, n)| { FirstEmpties(mem0, root, n, level, 5 - |tables|, r, m); }
  }

  lemma InstallOnlyEmpties(mem0: seq<Word>, F0: Forest, mem: seq<Word>, F: Forest,
                           root: nat, n: nat, level: nat, tables: seq<nat>, c: nat, e: Word)
    requires Request(mem0, F0, root, n) && Progress(mem0, F0, mem, F, root, n, level, tables)
    requires |PathFrom(mem0, root, 4, n)| <= |tables| < 5 - level && 1 <= level
    requires CanInstall(mem, F, tables[|tables| - 1], IndexAt(5 - |tables|, n), c, e)
    ensures Link(mem, F, root, n, tables, |tables| - 1)
    ensures OnlyEmptied(mem0, ZeroFrame(mem, c)[Slot(tables[|tables| - 1], IndexAt(5 - |tables|, n)) := e], F0, root, n, level)
  {
    hide WalkFrom, ReadsEntry, Emptied, PathFrom;
    var f, i := tables[|tables| - 1], IndexAt(5 - |tables|, n);
    var mem' := ZeroFrame(mem, c)[Slot(f, i) := e];
    TableInstalled(mem, F, f, i, c, e);
    assert Link(mem, F, root, n, tables, |tables| - 1);
    forall r, m: nat | IsRoot(F0, r) && m < PAGES
      ensures WalkPage(mem', r, m) == if Emptied(mem0, root, n, level, r, m) then None else WalkPage(mem0, r, m)
    {
      InstallEmpties(mem0, F0, mem, F, root, n, level, tables, r, m);
    }
  }

  lemma TopKeptTrans(mem0: seq<Word>, mem1: seq<Word>, mem2: seq<Word>, F0: Forest, F: Forest, root: nat, n: nat)
    requires Extends(F0, F) && |mem1| == |mem0| && |mem2| == |mem1|
    requires TopKept(mem0, mem1, F0, root, n) && TopKept(mem1, mem2, F, root, n)
    ensures TopKept(mem0, mem2, F0, root, n)
  {}

  lemma InstallStep(mem0: seq<Word>, F0: Forest, mem: seq<Word>, F: Forest,
                    root: nat, n: nat, level: nat, tables: seq<nat>, c: nat, e: Word)
    requires Request(mem0, F0, root, n) && Progress(mem0, F0, mem, F, root, n, level, tables)
    requires |PathFrom(mem0, root, 4, n)| <= |tables| < 5 - level && 1 <= level
    requires CanInstall(mem, F, tables[|tables| - 1], IndexAt(5 - |tables|, n), c, e)
    ensures Link(mem, F, root, n, tables, |tables| - 1)
    ensures var f, i := tables[|tables| - 1], IndexAt(5 - |tables|, n);
      Progress(mem0, F0, ZeroFrame(mem, c)[Slot(f, i) := e], AddTable(F, f, i, c), root, n, level, tables + [c])
  {
    hide Progress, Valid, Link, Chain, TopKept, OnlyEmptied, PathFrom, EmptyTable;
    var f, i := tables[|tables| - 1], IndexAt(5 - |tables|, n);
    var mem', F' := ZeroFrame(mem, c)[Slot(f, i) := e], AddTable(F, f, i, c);
    ProgressGives(mem0, F0, mem, F, root, n, level, tables);
    InstalledEmpty(mem, F, f, i, c, e);
    InstallOnlyEmpties(mem0, F0, mem, F, root, n, level, tables, c, e);
    InstallKeepsValid(mem, F, f, i, c, e);
    InstallExtendsChain(mem, F, root, n, tables, c, e);
    InstallKeepsTop(mem, F, root, n, tables, c, e);
    TopKeptTrans(mem0, mem, mem', F0, F, root, n);
    ProgressBeyond(mem0, F0, mem', F', root, n, level, tables + [c]);
  }

  lemma InstalledEmpty(mem: seq<Word>, F: Forest, f: nat, i: nat, c: nat, e: Word)
    requires Valid(mem, F) && CanInstall(mem, F, f, i, c, e)
    ensures var mem' := ZeroFrame(mem, c)[Slot(f, i) := e];
      |mem'| == |mem| && EmptyTable(mem', c) && Extends(F, AddTable(F, f, i, c))
  {
    InstallAgrees(mem, F, f, i, c, e);
  }

  /** Beyond the walk's path the state is known by its effect and by the empty last table. */
  lemma ProgressBeyond(mem0: seq<Word>, F0: Forest, mem: seq<Word>, F: Forest,
                       root: nat, n: nat, level: nat, tables: seq<nat>)
    requires Valid(mem, F) && Extends(F0, F) && |mem| == |mem0| && Chain(mem, F, root, n, tables)
    requires TopKept(mem0, mem, F0, root, n) && |tables| > |PathFrom(mem0, root, 4, n)|
    requires OnlyEmptied(mem0, mem, F0, root, n, level) && EmptyTable(mem, tables[|tables| - 1])
    ensures Progress(mem0, F0, mem, F, root, n, level, tables)
  {}

  // The leaf.

  ghost predicate CanWriteLeaf(frame: nat, level: nat, flags: EntryFlags, e: Word)
    requires 1 <= level <= 3
  {
    && frame < FRAME_LIMIT && frame % Reach(level) == 0
    && HasFlags(e, flags) && FrameOf(e) == frame && flags.present && (flags.size <==> level > 1)
  }

  /** The entry that receives the leaf, once nothing but a leaf or nothing hangs behind it. */
  lemma LeafSlot(mem0: seq<Word>, F0: Forest, mem: seq<Word>, F: Forest,
                 root: nat, n: nat, level: nat, tables: seq<nat>)
    requires Request(mem0, F0, root, n) && Progress(mem0, F0, mem, F, root, n, level, tables)
    requires |tables| == 5 - level && 1 <= level <= 3 && |PathFrom(mem0, root, 4, n)| <= |tables|
    ensures var g := tables[|tables| - 1];
      && g in F.nodes && F.nodes[g].level == level && Slot(g, IndexAt(level, n)) < |mem|
      && !IsPointer(mem[Slot(g, IndexAt(level, n))], level)
    ensures |tables| == |PathFrom(mem0, root, 4, n)| ==> LeafLevel(mem0, root, n) in {0, level}
  {
    var k := |tables|;
    var g, i := tables[k - 1], IndexAt(level, n);
    PathIsChain(mem0, F0, root, n);
    assert Link(mem, F, root, n, tables, k - 1);
    assert FrameOk(mem, F, g) && EntryOk(mem, F, g, i);
    if k > |PathFrom(mem0, root, 4, n)| {
      assert mem[Slot(g, i)] == 0;
    } else {
      ChainLeafLevel(mem, F, root, n, tables);
    }
  }

  lemma LeafMaps(e: Word, level: nat, frame: nat, flags: EntryFlags, m: nat, user: bool)
    requires 1 <= level <= 3 && CanWriteLeaf(frame, level, flags, e)
    ensures Restrict(Some(LeafMapping(e, level, m)), true, user) == Some(PageOf(frame, level, m, flags, user))
  {}

  /** One page's walk before the leaf is written, and whether it reads the leaf's entry. */
  lemma LeafReaders(mem0: seq<Word>, F0: Forest, mem: seq<Word>, F: Forest, root: nat, n: nat, level: nat,
                    tables: seq<nat>, r: nat, m: nat)
    requires Request(mem0, F0, root, n) && Progress(mem0, F0, mem, F, root, n, level, tables)
    requires |tables| == 5 - level && 1 <= level <= 3 && |PathFrom(mem0, root, 4, n)| <= |tables|
    requires IsRoot(F0, r) && m < PAGES
    ensures var g := tables[|tables| - 1]; g in F.nodes && F.nodes[g].level == level
    ensures ReadsEntry(mem, F, r, m, tables[|tables| - 1], IndexAt(level, n)) <==> Target(mem0, root, n, level, r, m)
    ensures WalkPage(mem, r, m) == if Emptied(mem0, root, n, level, r, m) then None else WalkPage(mem0, r, m)
  {
    LeafSlot(mem0, F0, mem, F, root, n, level, tables);
    ChainReaders(mem, F, root, n, tables, |tables| - 1, r, m);
    SameSharers(mem0, mem, F0, root, n, r);
  }

  lemma LeafStep(mem0: seq<Word>, F0: Forest, mem: seq<Word>, F: Forest, root: nat, n: nat, level: nat,
                 tables: seq<nat>, frame: nat, flags: EntryFlags, e: Word)
    requires Request(mem0, F0, root, n) && Progress(mem0, F0, mem, F, root, n, level, tables)
    requires |tables| == 5 - level && 1 <= level <= 3 && |PathFrom(mem0, root, 4, n)| <= |tables|
    requires CanWriteLeaf(frame, level, flags, e)
    ensures Slot(tables[|tables| - 1], IndexAt(level, n)) < |mem|
    ensures var mem' := mem[Slot(tables[|tables| - 1], IndexAt(level, n)) := e];
      Valid(mem', F) && MapsBlock(mem0, mem', F0, root, n, level, frame, flags)
  {
    hide Progress, Chain, Target, Emptied, Valid, WalkFrom, LeafMapping, PageOf, ReadsEntry;
    var g, i := tables[|tables| - 1], IndexAt(level, n);
    LeafSlot(mem0, F0, mem, F, root, n, level, tables);
    ProgressGives(mem0, F0, mem, F, root, n, level, tables);
    LeafWritten(mem, F, g, i, e);
    forall r, m: nat | IsRoot(F0, r) && m < PAGES
      ensures WalkPage(mem[Slot(g, i) := e], r, m) ==
        if Target(mem0, root, n, level, r, m) then Some(PageOf(frame, level, m, flags, F.user))
        else if Emptied(mem0, root, n, level, r, m) then None
        else WalkPage(mem0, r, m)
    {
      LeafReaders(mem0, F0, mem, F, root, n, level, tables, r, m);
      LeafMaps(e, level, frame, flags, m, F.user);
    }
  }

  lemma ProgressGives(mem0: seq<Word>, F0: Forest, mem: seq<Word>, F: Forest, root: nat, n: nat, level: nat, tables: seq<nat>)
    requires Progress(mem0, F0, mem, F, root, n, level, tables)
    ensures Valid(mem, F) && Extends(F0, F) && |mem| == |mem0| && Chain(mem, F, root, n, tables)
    ensures TopKept(mem0, mem, F0, root, n)
  {}

  // The code.

  /** `PageTable::index`, without the offset. */
  function Index(vaddr: nat): (nat, nat, nat, nat) {
    (And(Shr(vaddr, 39), 0x1ff), And(Shr(vaddr, 30), 0x1ff), And(Shr(vaddr, 21), 0x1ff), And(Shr(vaddr, 12), 0x1ff))
  }

  lemma ShiftedIndex(vaddr: nat, k: nat)
    ensures And(Shr(vaddr, k), 0x1ff) == vaddr / Pow2(k) % SLOTS
  {
    Pow2Values();
    ShrIsDiv(vaddr, k);
    AndLow(vaddr / Pow2(k), 9);
  }

  /** A level's index is cut out of the address by one division and one remainder. */
  lemma IndexOfAddress(vaddr: nat, reach: nat, above: nat)
    requires reach > 0 && above > 0
    ensures reach * (SLOTS * above) > 0
    ensures vaddr / PAGE_SIZE % (reach * (SLOTS * above)) / reach % SLOTS == vaddr / (PAGE_SIZE * reach) % SLOTS
  {
    var n := vaddr / PAGE_SIZE;
    DivDiv(vaddr, PAGE_SIZE, reach);
    DivOfMod(n, reach, SLOTS * above);
    ModOfMod(n / reach, SLOTS, above);
  }

  lemma PageIndices(vaddr: nat)
    ensures IndexAt(1, Page(vaddr)) == vaddr / PAGE_SIZE % SLOTS
    ensures IndexAt(2, Page(vaddr)) == vaddr / 0x20_0000 % SLOTS
    ensures IndexAt(3, Page(vaddr)) == vaddr / 0x4000_0000 % SLOTS
    ensures IndexAt(4, Page(vaddr)) == vaddr / 0x80_0000_0000 % SLOTS
  {
    IndexOfAddress(vaddr, 1, 0x800_0000);
    IndexOfAddress(vaddr, 512, 0x4_0000);
    IndexOfAddress(vaddr, 0x4_0000, 512);
    IndexOfAddress(vaddr, 0x800_0000, 1);
  }

  lemma IndexPowers()
    ensures Pow2(12) == PAGE_SIZE && Pow2(21) == 0x20_0000 && Pow2(30) == 0x4000_0000 && Pow2(39) == 0x80_0000_0000
  {
    Pow2Values();
    Pow2Add(12, 9);
    Pow2Add(12, 18);
    Pow2Add(12, 27);
    Pow2Add(9, 9);
    Pow2Add(9, 18);
  }

  /** The shifts and masks of the code select the index of each level of the walk. */
  lemma IndexIsPath(vaddr: nat)
    ensures Index(vaddr) ==
      (IndexAt(4, Page(vaddr)), IndexAt(3, Page(vaddr)), IndexAt(2, Page(vaddr)), IndexAt(1, Page(vaddr)))
  {
    hide And, Shr, Pow2, IndexAt, Page;
    IndexPowers();
    ShiftedIndex(vaddr, 39);
    ShiftedIndex(vaddr, 30);
    ShiftedIndex(vaddr, 21);
    ShiftedIndex(vaddr, 12);
    PageIndices(vaddr);
  }

  datatype PageMapping = PageMapping(p4: Option<nat>, p3: Option<nat>, p2: Option<nat>, p1: Option<nat>) {
    function Entries(): seq<Option<nat>> {
      [p4, p3, p2, p1]
    }
  }

  function EntryAddr(path: seq<nat>, n: nat, k: nat): Option<nat>
    requires k < 4
  {
    if k < |path| then Some(SlotAddr(path[k], IndexAt(4 - k, n))) else None
  }

  /** The addresses of the first `d` entries on a path. */
  function Addresses(path: seq<nat>, n: nat, d: nat): PageMapping {
    PageMapping(if d > 0 then EntryAddr(path, n, 0) else None,
                if d > 1 then EntryAddr(path, n, 1) else None,
                if d > 2 then EntryAddr(path, n, 2) else None,
                if d > 3 then EntryAddr(path, n, 3) else None)
  }

  lemma PathEntry(mem: seq<Word>, F: Forest, root: nat, n: nat, k: nat)
    requires Valid(mem, F) && IsRoot(F, root) && n < PAGES && k < |PathFrom(mem, root, 4, n)|
    ensures k < 4
    ensures var p := PathFrom(mem, root, 4, n);
      var s := Slot(p[k], IndexAt(4 - k, n));
      && s < |mem| && (k + 1 < |p| <==> IsPointer(mem[s], 4 - k))
      && (k + 1 < |p| ==> p[k + 1] == FrameOf(mem[s]))
  {
    var p := PathFrom(mem, root, 4, n);
    PathLink(mem, F, root, n, k);
    assert FrameOk(mem, F, p[k]);
    assert p[k..][1..] == p[k + 1..];
  }

  /** The addresses of the entries that the walk of `vaddr` reads, one for each table on its path. */
  method TranslateMapping(pm: PhysicalMemory, table: nat, vaddr: nat, ghost F: Forest) returns (result: PageMapping)
    requires pm.Valid() && Valid(pm.words, F) && table % PAGE_SIZE == 0 && IsRoot(F, table / PAGE_SIZE)
    ensures result == Addresses(PathFrom(pm.words, table / PAGE_SIZE, 4, Page(vaddr)), Page(vaddr), 4)
  {
    result := PageMapping(None, None, None, None);
    var (p4, p3, p2, p1) := Index(vaddr);
    var indices := [p4, p3, p2, p1];
    var current := table;
    ghost var n := Page(vaddr);
    ghost var path := PathFrom(pm.words, table / PAGE_SIZE, 4, n);
    IndexIsPath(vaddr);
    PathIsChain(pm.words, F, table / PAGE_SIZE, n);
    var depth := 0;
    while depth < 4
      invariant 0 <= depth <= 4
      invariant depth < 4 ==> depth < |path| && current == path[depth] * PAGE_SIZE
      invariant depth == 4 ==> |path| == 4
      invariant result == Addresses(path, n, depth)
    {
      var entryAddr := current + indices[depth] * 8;
      match depth {
        case 0 => result := result.(p4 := Some(entryAddr));
        case 1 => result := result.(p3 := Some(entryAddr));
        case 2 => result := result.(p2 := Some(entryAddr));
        case 3 => result := result.(p1 := Some(entryAddr));
      }
      assert indices[depth] == IndexAt(4 - depth, n);
      assert entryAddr == SlotAddr(path[depth], IndexAt(4 - depth, n));
      assert result == Addresses(path, n, depth + 1);
      PathEntry(pm.words, F, table / PAGE_SIZE, n, depth);
      var entry := pm.Read(entryAddr);
      EntryReads(entry);
      if !Contains(entry, PRESENT_BIT) {
        assert |path| == depth + 1;
        break;
      }
      current := Address(entry);
      if depth == 3 || Contains(entry, SIZE_BIT) {
        assert |path| == depth + 1;
        break;
      }
      depth := depth + 1;
    }
  }

  // Where new tables come from, and what may be written.

  ghost predicate FramesFit(mem: seq<Word>, F: Forest, free: set<nat>) {
    forall f | f in free :: f !in F.nodes && f < FRAME_LIMIT && Slot(f, SLOTS) <= |mem|
  }

  /** Only words of tables change. */
  ghost predicate OnlyTables(mem: seq<Word>, mem': seq<Word>, F: Forest) {
    |mem'| == |mem| && forall s | 0 <= s < |mem| && s / SLOTS !in F.nodes :: mem'[s] == mem[s]
  }

  /** Every frame that left the allocator became a table, and no other did. */
  ghost predicate TablesTaken(F: Forest, F': Forest, free: set<nat>, free': set<nat>) {
    Extends(F, F') && free' <= free && F'.nodes.Keys == F.nodes.Keys + (free - free')
  }

  /** The new tables lie on the way to page `n`, at or above the leaf's table. */
  ghost predicate NewTablesServe(F: Forest, F': Forest, n: nat, level: nat) {
    forall g | g in F'.nodes && g !in F.nodes ::
      level <= F'.nodes[g].level <= 3 && 1 <= level && Serves(F', g, n)
  }

  /** What every call of `map_raw_option` keeps. */
  ghost predicate Maintains(mem: seq<Word>, F: Forest, free: set<nat>, mem': seq<Word>, F': Forest, free': set<nat>,
                            root: nat, n: nat, level: nat)
  {
    && Valid(mem', F') && TablesTaken(F, F', free, free') && NewTablesServe(F, F', n, level)
    && OnlyTables(mem, mem', F') && FramesFit(mem', F', free') && TopKept(mem, mem', F, root, n)
  }

  lemma MaintainsRoot(mem: seq<Word>, F: Forest, free: set<nat>, mem': seq<Word>, F': Forest, free': set<nat>,
                      root: nat, n: nat, level: nat)
    requires Maintains(mem, F, free, mem', F', free', root, n, level)
    ensures F'.kroot == F.kroot
  {}

  function TableFlags(pageFlags: EntryFlags): EntryFlags {
    EntryFlags(true, true, pageFlags.user, false, false)
  }

  lemma TableEntryFits(mem: seq<Word>, F: Forest, f: nat, i: nat, c: nat, pageFlags: EntryFlags, free: set<nat>)
    requires EmptySlot(mem, F, f, i) && FramesFit(mem, F, free) && c in free && pageFlags.user == F.user
    ensures MakeEntry(c * PAGE_SIZE, TableFlags(pageFlags)) < Bits.WORD_LIMIT
    ensures CanInstall(mem, F, f, i, c, MakeEntry(c * PAGE_SIZE, TableFlags(pageFlags)))
  {
    EntryMade(c, TableFlags(pageFlags));
  }

  lemma InstallOnlyTables(mem0: seq<Word>, mem: seq<Word>, F: Forest, f: nat, i: nat, c: nat, e: Word)
    requires FramesOk(mem, F) && CanInstall(mem, F, f, i, c, e) && OnlyTables(mem0, mem, F)
    ensures OnlyTables(mem0, ZeroFrame(mem, c)[Slot(f, i) := e], AddTable(F, f, i, c))
  {
    var F' := AddTable(F, f, i, c);
    forall s | 0 <= s < |mem| && s / SLOTS !in F'.nodes
      ensures ZeroFrame(mem, c)[Slot(f, i) := e][s] == mem0[s]
    {
      assert s / SLOTS != c && s / SLOTS != f;
      assert Slot(f, i) / SLOTS == f;
    }
  }

  ghost predicate BlockedBelow(mem: seq<Word>, root: nat, n: nat, level: nat) {
    |PathFrom(mem, root, 4, n)| > 5 - level
  }

  /** A block can be mapped: no smaller table hangs there, and the free frames suffice. */
  ghost predicate Possible(mem: seq<Word>, root: nat, n: nat, level: nat, frames: nat)
    requires 1 <= level <= 3
  {
    !BlockedBelow(mem, root, n, level) && MissingTables(mem, root, n, level) <= frames
  }

  /** What holds between two iterations of the loop of `map_raw_option`. */
  ghost predicate LoopState(mem0: seq<Word>, F0: Forest, free0: set<nat>, mem: seq<Word>, F: Forest, free: set<nat>,
                            root: nat, n: nat, level: nat, tables: seq<nat>)
  {
    && Request(mem0, F0, root, n) && Progress(mem0, F0, mem, F, root, n, level, tables)
    && TablesTaken(F0, F, free0, free) && OnlyTables(mem0, mem, F) && FramesFit(mem, F, free)
    && NewTablesServe(F0, F, n, level)
  }

  lemma NothingWritten(mem: seq<Word>, F: Forest, free: set<nat>, root: nat, n: nat, level: nat)
    requires Valid(mem, F) && FramesFit(mem, F, free)
    ensures Maintains(mem, F, free, mem, F, free, root, n, level) && Unchanged(mem, mem, F)
  {}

  lemma LoopStateGives(mem0: seq<Word>, F0: Forest, free0: set<nat>, mem: seq<Word>, F: Forest, free: set<nat>,
                       root: nat, n: nat, level: nat, tables: seq<nat>)
    requires LoopState(mem0, F0, free0, mem, F, free, root, n, level, tables)
    ensures Maintains(mem0, F0, free0, mem, F, free, root, n, level)
    ensures Unchanged(mem0, mem, F0) || OnlyEmptied(mem0, mem, F0, root, n, level)
  {}

  lemma FollowState(mem0: seq<Word>, F0: Forest, free0: set<nat>, mem: seq<Word>, F: Forest, free: set<nat>,
                    root: nat, n: nat, level: nat, tables: seq<nat>)
    requires LoopState(mem0, F0, free0, mem, F, free, root, n, level, tables)
    requires |tables| < |PathFrom(mem0, root, 4, n)|
    ensures LoopState(mem0, F0, free0, mem, F, free, root, n, level, tables + [PathFrom(mem0, root, 4, n)[|tables|]])
  {
    FollowProgress(mem0, F0, root, n, level, tables);
  }

  lemma InstallTakes(mem: seq<Word>, F0: Forest, free0: set<nat>, F: Forest, free: set<nat>, f: nat, i: nat, c: nat, e: Word)
    requires TablesTaken(F0, F, free0, free) && FramesFit(mem, F, free) && c in free
    requires CanInstall(mem, F, f, i, c, e)
    ensures TablesTaken(F0, AddTable(F, f, i, c), free0, free - {c})
    ensures FramesFit(ZeroFrame(mem, c)[Slot(f, i) := e], AddTable(F, f, i, c), free - {c})
  {
    assert c in free0 - (free - {c});
    assert free0 - (free - {c}) == (free0 - free) + {c};
  }

  lemma InstallServes(F0: Forest, F: Forest, root: nat, n: nat, level: nat, tables: seq<nat>, mem: seq<Word>, c: nat)
    requires NewTablesServe(F0, F, n, level) && Chain(mem, F, root, n, tables)
    requires 1 <= level && |tables| < 5 - level && c !in F.nodes && Extends(F0, F)
    ensures Link(mem, F, root, n, tables, |tables| - 1)
    ensures NewTablesServe(F0, AddTable(F, tables[|tables| - 1], IndexAt(5 - |tables|, n), c), n, level)
  {
    assert Link(mem, F, root, n, tables, |tables| - 1);
    BlockSplit(5 - |tables|, n);
  }

  lemma CreateStep(mem0: seq<Word>, F0: Forest, free0: set<nat>, mem: seq<Word>, F: Forest, free: set<nat>,
                   root: nat, n: nat, level: nat, tables: seq<nat>, c: nat, e: Word)
    requires LoopState(mem0, F0, free0, mem, F, free, root, n, level, tables)
    requires |PathFrom(mem0, root, 4, n)| <= |tables| < 5 - level && 1 <= level && c in free
    requires CanInstall(mem, F, tables[|tables| - 1], IndexAt(5 - |tables|, n), c, e)
    ensures Link(mem, F, root, n, tables, |tables| - 1)
    ensures var f, i := tables[|tables| - 1], IndexAt(5 - |tables|, n);
      LoopState(mem0, F0, free0, ZeroFrame(mem, c)[Slot(f, i) := e], AddTable(F, f, i, c), free - {c},
                root, n, level, tables + [c])
  {
    var f, i := tables[|tables| - 1], IndexAt(5 - |tables|, n);
    InstallStep(mem0, F0, mem, F, root, n, level, tables, c, e);
    InstallOnlyTables(mem0, mem, F, f, i, c, e);
    InstallTakes(mem, F0, free0, F, free, f, i, c, e);
    InstallServes(F0, F, root, n, level, tables, mem, c);
  }

  /** One missing table: the write that hangs frame `c` is possible and keeps the state of the loop. */
  lemma HangStep(mem0: seq<Word>, F0: Forest, free0: set<nat>, mem: seq<Word>, F: Forest, free: set<nat>,
                 root: nat, n: nat, level: nat, tables: seq<nat>, c: nat, pageFlags: EntryFlags)
    requires LoopState(mem0, F0, free0, mem, F, free, root, n, level, tables)
    requires |PathFrom(mem0, root, 4, n)| <= |tables| < 5 - level && 1 <= level && c in free && pageFlags.user == F0.user
    ensures MakeEntry(c * PAGE_SIZE, TableFlags(pageFlags)) < Bits.WORD_LIMIT && Slot(c, SLOTS) <= |mem|
    ensures Slot(tables[|tables| - 1], IndexAt(5 - |tables|, n)) < |ZeroFrame(mem, c)| == |mem|
    ensures tables[|tables| - 1] in F.nodes && F.nodes[tables[|tables| - 1]].level > 1
    ensures var f, i, e := tables[|tables| - 1], IndexAt(5 - |tables|, n), MakeEntry(c * PAGE_SIZE, TableFlags(pageFlags));
      LoopState(mem0, F0, free0, ZeroFrame(mem, c)[Slot(f, i) := e], AddTable(F, f, i, c), free - {c},
                root, n, level, tables + [c])
  {
    hide WalkFrom, PathFrom, MakeEntry, Chain, TopKept, OnlyEmptied, ZeroFrame, AddTable, OnlyTables, NewTablesServe;
    var f, i := tables[|tables| - 1], IndexAt(5 - |tables|, n);
    MissingTable(mem0, F0, mem, F, root, n, level, tables);
    TableEntryFits(mem, F, f, i, c, pageFlags, free);
    InstallSlot(mem, F, f, i, c, MakeEntry(c * PAGE_SIZE, TableFlags(pageFlags)));
    CreateStep(mem0, F0, free0, mem, F, free, root, n, level, tables, c, MakeEntry(c * PAGE_SIZE, TableFlags(pageFlags)));
  }

  /** Zero the frame `c` and hang it as a table into the entry at `addr`. */
  method HangTable(pm: PhysicalMemory, ghost words: seq<Word>, ghost F0: Forest, ghost free0: set<nat>, ghost F: Forest,
                   ghost free: set<nat>, ghost root: nat, ghost n: nat, ghost level: nat, ghost tables: seq<nat>,
                   addr: nat, c: nat, pageFlags: EntryFlags)
    returns (ghost F': Forest)
    requires pm.Valid() && LoopState(words, F0, free0, pm.words, F, free, root, n, level, tables)
    requires |PathFrom(words, root, 4, n)| <= |tables| < 5 - level && 1 <= level
    requires pageFlags.user == F0.user && c in free
    requires addr == SlotAddr(tables[|tables| - 1], IndexAt(5 - |tables|, n))
    modifies pm
    ensures pm.Valid() && LoopState(words, F0, free0, pm.words, F', free - {c}, root, n, level, tables + [c])
  {
    hide LoopState, WalkFrom, PathFrom, ZeroFrame, AddTable, MakeEntry, IndexAt;
    ghost var f, i, before := tables[|tables| - 1], IndexAt(5 - |tables|, n), pm.words;
    HangStep(words, F0, free0, before, F, free, root, n, level, tables, c, pageFlags);
    var newEntry := MakeEntry(c * PAGE_SIZE, TableFlags(pageFlags));
    F' := AddTable(F, f, i, c);
    FrameAddress(c);
    pm.ZeroPage(c * PAGE_SIZE);
    pm.Write(addr, newEntry);
  }

  lemma FrameAddress(c: nat)
    ensures c * PAGE_SIZE % PAGE_SIZE == 0 && c * PAGE_SIZE / PAGE_SIZE == c
  {}

  lemma LeafEntry(paddr: nat, pageType: PageType, pageFlags: EntryFlags)
    requires paddr % (PAGE_SIZE * Reach(pageType.Level())) == 0 && paddr / PAGE_SIZE < FRAME_LIMIT
    requires pageFlags.present && !pageFlags.size
    ensures var flags := if pageType.Page4K? then pageFlags else pageFlags.(size := true);
      && MakeEntry(paddr, flags) < Bits.WORD_LIMIT
      && CanWriteLeaf(paddr / PAGE_SIZE, pageType.Level(), flags, MakeEntry(paddr, flags))
  {
    hide MakeEntry, HasFlags, FrameOf;
    var flags := if pageType.Page4K? then pageFlags else pageFlags.(size := true);
    EntryMade(paddr / PAGE_SIZE, flags);
    AlignedFrame(paddr, pageType);
  }

  lemma AlignedFrame(paddr: nat, pageType: PageType)
    requires paddr % (PAGE_SIZE * Reach(pageType.Level())) == 0
    ensures paddr == paddr / PAGE_SIZE * PAGE_SIZE && paddr / PAGE_SIZE % Reach(pageType.Level()) == 0
  {
    match pageType {
      case Page4K => Multiple(paddr, 1);
      case Page2M => Multiple(paddr, 512);
      case Page1G => Multiple(paddr, 0x4_0000);
    }
  }

  lemma Multiple(paddr: nat, reach: nat)
    requires reach > 0 && paddr % (PAGE_SIZE * reach) == 0
    ensures paddr == paddr / PAGE_SIZE * PAGE_SIZE && paddr / PAGE_SIZE % reach == 0
  {
    DivOfMod(paddr, PAGE_SIZE, reach);
    ModOfMod(paddr, PAGE_SIZE, reach);
  }

  lemma LeafFits(words: seq<Word>, F0: Forest, free0: set<nat>, mem: seq<Word>, F: Forest, free: set<nat>,
                 root: nat, n: nat, level: nat, tables: seq<nat>, frame: nat, flags: EntryFlags, e: Word)
    requires LoopState(words, F0, free0, mem, F, free, root, n, level, tables)
    requires |tables| == 5 - level && 1 <= level <= 3 && |PathFrom(words, root, 4, n)| <= |tables|
    requires CanWriteLeaf(frame, level, flags, e)
    ensures Slot(tables[|tables| - 1], IndexAt(level, n)) < |mem|
    ensures var mem' := mem[Slot(tables[|tables| - 1], IndexAt(level, n)) := e];
      && Maintains(words, F0, free0, mem', F, free, root, n, level)
      && MapsBlock(words, mem', F0, root, n, level, frame, flags)
  {
    hide Progress, MapsBlock, Valid, WalkFrom;
    var g, i := tables[|tables| - 1], IndexAt(level, n);
    LoopStateGives(words, F0, free0, mem, F, free, root, n, level, tables);
    LeafSlot(words, F0, mem, F, root, n, level, tables);
    LeafStep(words, F0, mem, F, root, n, level, tables, frame, flags, e);
    LeafKeepsRest(words, F0, mem, F, root, n, g, i, e);
  }

  lemma LeafKeepsRest(words: seq<Word>, F0: Forest, mem: seq<Word>, F: Forest, root: nat, n: nat, g: nat, i: nat, e: Word)
    requires OnlyTables(words, mem, F) && TopKept(words, mem, F0, root, n) && Extends(F0, F)
    requires g in F.nodes && F.nodes[g].level < 4 && i < SLOTS && Slot(g, i) < |mem|
    ensures OnlyTables(words, mem[Slot(g, i) := e], F) && TopKept(words, mem[Slot(g, i) := e], F0, root, n)
  {
    forall r, j: nat | IsRoot(F0, r) && j < SLOTS ensures Slot(r, j) != Slot(g, i) { SlotsApart(r, j, g, i); }
    assert Slot(g, i) / SLOTS == g;
  }

  lemma SameBlock(words: seq<Word>, mem: seq<Word>, F: Forest, root: nat, n: nat, level: nat, frame: nat,
                  a: EntryFlags, b: EntryFlags)
    requires 1 <= level <= 3 && a == b.(size := a.size) && MapsBlock(words, mem, F, root, n, level, frame, a)
    ensures MapsBlock(words, mem, F, root, n, level, frame, b)
  {}

  /** The last write of `map_raw_option`. */
  method WriteLeaf(pm: PhysicalMemory, ghost words: seq<Word>, ghost F0: Forest, ghost free0: set<nat>, ghost F: Forest,
                   ghost free: set<nat>, ghost root: nat, ghost n: nat, ghost tables: seq<nat>,
                   addr: nat, paddr: nat, pageType: PageType, pageFlags: EntryFlags)
    requires pm.Valid() && LoopState(words, F0, free0, pm.words, F, free, root, n, pageType.Level(), tables)
    requires |PathFrom(words, root, 4, n)| <= |tables| == 5 - pageType.Level()
    requires paddr % (PAGE_SIZE * Reach(pageType.Level())) == 0 && paddr / PAGE_SIZE < FRAME_LIMIT
    requires pageFlags.present && !pageFlags.size
    requires addr == SlotAddr(tables[|tables| - 1], IndexAt(pageType.Level(), n))
    modifies pm
    ensures pm.Valid() && Maintains(words, F0, free0, pm.words, F, free, root, n, pageType.Level())
    ensures MapsBlock(words, pm.words, F0, root, n, pageType.Level(), paddr / PAGE_SIZE, pageFlags)
  {
    var flags := if pageType.Page4K? then pageFlags else pageFlags.(size := true);
    ghost var g, i, before := tables[|tables| - 1], IndexAt(pageType.Level(), n), pm.words;
    hide LoopState, Maintains;
    LeafEntry(paddr, pageType, pageFlags);
    var entry := MakeEntry(paddr, flags);
    LeafFits(words, F0, free0, before, F, free, root, n, pageType.Level(), tables, paddr / PAGE_SIZE, flags, entry);
    pm.Write(addr, entry);
    assert pm.words == before[Slot(g, i) := entry];
    SameBlock(words, pm.words, F0, root, n, pageType.Level(), paddr / PAGE_SIZE, flags, pageFlags);
  }

  /** Take a frame for the missing table and hang it. */
  method AddMissingTable(pm: PhysicalMemory, fa: BitmapFrameAllocator, ghost words: seq<Word>, ghost F0: Forest,
                         ghost free0: set<nat>, ghost F: Forest, ghost root: nat, ghost n: nat, ghost level: nat,
                         ghost tables: seq<nat>, addr: nat, pageFlags: EntryFlags)
    returns (frame: Option<nat>, ghost F': Forest)
    requires pm.Valid() && fa.Valid() && pm !in fa.Repr
    requires LoopState(words, F0, free0, pm.words, F, fa.free, root, n, level, tables)
    requires |PathFrom(words, root, 4, n)| <= |tables| < 5 - level && 1 <= level && pageFlags.user == F0.user
    requires addr == SlotAddr(tables[|tables| - 1], IndexAt(5 - |tables|, n))
    modifies pm, fa`free, fa.Repr
    ensures pm.Valid() && fa.Valid() && fa.Repr == old(fa.Repr) && fa.regions == old(fa.regions)
    ensures frame.None? ==> pm.words == old(pm.words) && F' == F && fa.free == old(fa.free) == {}
    ensures frame.Some? ==> LoopState(words, F0, free0, pm.words, F', fa.free, root, n, level, tables + [frame.value])
    ensures frame.Some? ==> |fa.free| + 1 == |old(fa.free)|
  {
    hide *;
    frame := fa.AllocFrame();
    if frame.None? {
      return frame, F;
    }
    F' := HangTable(pm, words, F0, free0, F, old(fa.free), root, n, level, tables, addr, frame.value, pageFlags);
  }

  /** `entries` holds the address of the entry in the last known table, and beyond it what the
      walk found. */
  ghost predicate EntriesKnown(entries: seq<Option<nat>>, path: seq<nat>, tables: seq<nat>, n: nat) {
    && |entries| == 4 && 1 <= |tables| <= 4
    && entries[|tables| - 1] == Some(SlotAddr(tables[|tables| - 1], IndexAt(5 - |tables|, n)))
    && forall k | |tables| <= k < 4 :: entries[k] == EntryAddr(path, n, k)
  }

  lemma EntriesGrow(entries: seq<Option<nat>>, path: seq<nat>, tables: seq<nat>, n: nat, c: nat, addr: nat)
    requires EntriesKnown(entries, path, tables, n) && |tables| < 4
    requires addr == c * PAGE_SIZE + IndexAt(4 - |tables|, n) * 8
    ensures EntriesKnown(entries[|tables| := Some(addr)], path, tables + [c], n)
  {}

  lemma EntriesFollow(entries: seq<Option<nat>>, path: seq<nat>, tables: seq<nat>, n: nat)
    requires EntriesKnown(entries, path, tables, n) && |tables| < 4 && entries[|tables|].Some?
    ensures |tables| < |path| && EntriesKnown(entries, path, tables + [path[|tables|]], n)
  {}

  lemma EntriesEnd(entries: seq<Option<nat>>, path: seq<nat>, tables: seq<nat>, n: nat)
    requires EntriesKnown(entries, path, tables, n) && |tables| < 4 && entries[|tables|].None?
    ensures |path| <= |tables|
  {
    assert entries[|tables|] == EntryAddr(path, n, |tables|);
  }

  /** How many of the first `count` tables of a chain are not on the path of the walk. */
  function Beyond(path: seq<nat>, count: nat): nat {
    if count > |path| then count - |path| else 0
  }

  /** How many tables are missing on the way to a block. */
  ghost function MissingTables(mem: seq<Word>, root: nat, n: nat, level: nat): nat
    requires 1 <= level <= 3
  {
    Beyond(PathFrom(mem, root, 4, n), 5 - level)
  }

  /** The body of the loop of `map_raw_option`. */
  method NextTable(pm: PhysicalMemory, fa: BitmapFrameAllocator, ghost words: seq<Word>, ghost F0: Forest,
                   ghost free0: set<nat>, ghost F: Forest, ghost root: nat, ghost n: nat, ghost level: nat,
                   ghost tables: seq<nat>, entries: seq<Option<nat>>, index: nat, indices: seq<nat>, pageFlags: EntryFlags)
    returns (ok: bool, entries': seq<Option<nat>>, ghost tables': seq<nat>, ghost F': Forest)
    requires pm.Valid() && fa.Valid() && {pm as object, fa} !! fa.Repr && pm as object != fa
    requires LoopState(words, F0, free0, pm.words, F, fa.free, root, n, level, tables)
    requires EntriesKnown(entries, PathFrom(words, root, 4, n), tables, n)
    requires 1 <= index == |tables| < 5 - level && 1 <= level && pageFlags.user == F0.user
    requires |indices| == 4 && forall k | 0 <= k < 4 :: indices[k] == IndexAt(4 - k, n)
    modifies pm, fa`free, fa.Repr
    ensures pm.Valid() && fa.Valid() && fa.Repr == old(fa.Repr) && fa.regions == old(fa.regions)
    ensures LoopState(words, F0, free0, pm.words, F', fa.free, root, n, level, tables')
    ensures !ok ==> fa.free == old(fa.free) == {} && |PathFrom(words, root, 4, n)| <= index == |tables'|
    ensures ok ==> |tables'| == index + 1 && EntriesKnown(entries', PathFrom(words, root, 4, n), tables', n)
    ensures ok ==> |fa.free| + Beyond(PathFrom(words, root, 4, n), index + 1) ==
                   |old(fa.free)| + Beyond(PathFrom(words, root, 4, n), index)
  {
    hide LoopState;
    ghost var path := PathFrom(words, root, 4, n);
    if entries[index].Some? {
      EntriesFollow(entries, path, tables, n);
      FollowState(words, F0, free0, pm.words, F, fa.free, root, n, level, tables);
      return true, entries, tables + [path[index]], F;
    }
    EntriesEnd(entries, path, tables, n);
    var frame;
    frame, F' := AddMissingTable(pm, fa, words, F0, free0, F, root, n, level, tables, entries[index - 1].value, pageFlags);
    if frame.None? {
      return false, entries, tables, F';
    }
    var addr := frame.value * PAGE_SIZE + indices[index] * 8;
    EntriesGrow(entries, path, tables, n, frame.value, addr);
    return true, entries[index := Some(addr)], tables + [frame.value], F';
  }

  lemma StartState(words: seq<Word>, F: Forest, free: set<nat>, root: nat, n: nat, level: nat)
    requires Request(words, F, root, n) && FramesFit(words, F, free)
    ensures LoopState(words, F, free, words, F, free, root, n, level, [root])
  {
    StartProgress(words, F, root, n, level);
  }

  lemma StartEntries(words: seq<Word>, root: nat, n: nat)
    ensures EntriesKnown(Addresses(PathFrom(words, root, 4, n), n, 4).Entries(), PathFrom(words, root, 4, n), [root], n)
  {}

  lemma LastKnown(words: seq<Word>, root: nat, n: nat, level: nat, entries: seq<Option<nat>>, tables: seq<nat>)
    requires EntriesKnown(entries, PathFrom(words, root, 4, n), tables, n) && 1 <= level <= 3 && |tables| == 5 - level
    ensures |entries| == 4 && entries[4 - level] == Some(SlotAddr(tables[4 - level], IndexAt(level, n)))
    ensures !BlockedBelow(words, root, n, level) ==> |PathFrom(words, root, 4, n)| <= |tables|
  {}

  /** What the loop leaves behind when the frames run out. */
  lemma StoppedState(mem0: seq<Word>, F0: Forest, free0: set<nat>, mem: seq<Word>, F: Forest, free: set<nat>,
                     root: nat, n: nat, level: nat, tables: seq<nat>)
    requires LoopState(mem0, F0, free0, mem, F, free, root, n, level, tables)
    requires free == {} && Beyond(PathFrom(mem0, root, 4, n), |tables|) == |free0|
    ensures if free0 == {} then mem == mem0 else OnlyEmptied(mem0, mem, F0, root, n, level)
  {
    hide WalkFrom, PathFrom, Valid, Chain, OnlyEmptied, TopKept, EmptyTable;
    assert free0 == {} <==> |free0| == 0;
  }

  /** The loop of `map_raw_option`: every table down to the leaf's is there, or no frame is left. */
  method CreateTables(pm: PhysicalMemory, fa: BitmapFrameAllocator, ghost words: seq<Word>, ghost F: Forest,
                      ghost root: nat, ghost n: nat, ghost level: nat, depth: nat, indices: seq<nat>,
                      mapping: PageMapping, pageFlags: EntryFlags)
    returns (entry: Option<nat>, ghost tables: seq<nat>, ghost F': Forest)
    requires pm.Valid() && fa.Valid() && {pm as object, fa} !! fa.Repr && pm as object != fa
    requires pm.words == words && Request(words, F, root, n) && FramesFit(words, F, fa.free)
    requires 1 <= level <= 3 && depth == 5 - level && pageFlags.user == F.user
    requires |indices| == 4 && forall k | 0 <= k < 4 :: indices[k] == IndexAt(4 - k, n)
    requires mapping == Addresses(PathFrom(words, root, 4, n), n, 4)
    requires !BlockedBelow(words, root, n, level)
    modifies pm, fa`free, fa.Repr
    ensures pm.Valid() && fa.Valid() && fa.Repr == old(fa.Repr) && fa.regions == old(fa.regions)
    ensures LoopState(words, F, old(fa.free), pm.words, F', fa.free, root, n, level, tables)
    ensures entry.None? ==> fa.free == {} && |old(fa.free)| < MissingTables(words, root, n, level)
    ensures entry.None? ==> if old(fa.free) == {} then pm.words == words else OnlyEmptied(words, pm.words, F, root, n, level)
    ensures entry.Some? ==> |PathFrom(words, root, 4, n)| <= |tables| == depth
    ensures entry.Some? ==> |fa.free| + MissingTables(words, root, n, level) == |old(fa.free)|
    ensures entry.Some? ==> entry.value == SlotAddr(tables[depth - 1], IndexAt(level, n))
  {
    hide LoopState, WalkFrom, PathFrom, Request, FramesFit, BlockedBelow, IndexAt, EntriesKnown;
    var entries := mapping.Entries();
    F', tables := F, [root];
    StartState(words, F, fa.free, root, n, level);
    StartEntries(words, root, n);
    var index := 1;
    while index < depth
      invariant 1 <= index <= depth && |tables| == index
      invariant pm.Valid() && fa.Valid() && fa.Repr == old(fa.Repr) && fa.regions == old(fa.regions)
      invariant LoopState(words, F, old(fa.free), pm.words, F', fa.free, root, n, level, tables)
      invariant EntriesKnown(entries, PathFrom(words, root, 4, n), tables, n)
      invariant |fa.free| + Beyond(PathFrom(words, root, 4, n), index) == |old(fa.free)|
    {
      var ok;
      ok, entries, tables, F' := NextTable(pm, fa, words, F, old(fa.free), F', root, n, level, tables, entries,
                                           index, indices, pageFlags);
      if !ok {
        StoppedState(words, F, old(fa.free), pm.words, F', fa.free, root, n, level, tables);
        return None, tables, F';
      }
      index := index + 1;
    }
    LastKnown(words, root, n, level, entries, tables);
    entry := entries[depth - 1];
  }

  /** `map_raw_option`. On success every page of the block is translated to `paddr` from every
      root that shares the block's tables, the rest of a larger leaf is unmapped, and no other
      translation changes. It succeeds exactly when no smaller table is in the way and there is a
      frame for every missing table. A blocked call, or one without any frame, changes nothing; if
      the frames run out half-way, a larger leaf has been broken up. */
  method MapRawOption(pm: PhysicalMemory, fa: BitmapFrameAllocator, ghost F: Forest, table: nat,
                      vaddr: nat, paddr: nat, pageType: PageType, pageFlags: EntryFlags)
    returns (ok: bool, ghost F': Forest)
    requires pm.Valid() && fa.Valid() && {pm as object, fa} !! fa.Repr && pm as object != fa
    requires table % PAGE_SIZE == 0 && Request(pm.words, F, table / PAGE_SIZE, Page(vaddr))
    requires FramesFit(pm.words, F, fa.free)
    requires paddr % (PAGE_SIZE * Reach(pageType.Level())) == 0 && paddr / PAGE_SIZE < FRAME_LIMIT
    requires pageFlags.present && !pageFlags.size && pageFlags.user == F.user
    modifies pm, fa`free, fa.Repr
    ensures pm.Valid() && fa.Valid() && fa.Repr == old(fa.Repr) && fa.regions == old(fa.regions)
    ensures Maintains(old(pm.words), F, old(fa.free), pm.words, F', fa.free, table / PAGE_SIZE, Page(vaddr), pageType.Level())
    ensures ok ==> MapsBlock(old(pm.words), pm.words, F, table / PAGE_SIZE, Page(vaddr), pageType.Level(),
                             paddr / PAGE_SIZE, pageFlags)
    ensures ok <==> Possible(old(pm.words), table / PAGE_SIZE, Page(vaddr), pageType.Level(), |old(fa.free)|)
    ensures ok ==> |fa.free| + MissingTables(old(pm.words), table / PAGE_SIZE, Page(vaddr), pageType.Level()) == |old(fa.free)|
    ensures !ok ==> fa.free == {} || BlockedBelow(old(pm.words), table / PAGE_SIZE, Page(vaddr), pageType.Level())
    ensures BlockedBelow(old(pm.words), table / PAGE_SIZE, Page(vaddr), pageType.Level()) || old(fa.free) == {} ==>
      ok || (pm.words == old(pm.words) && fa.free == old(fa.free))
    ensures !ok && !BlockedBelow(old(pm.words), table / PAGE_SIZE, Page(vaddr), pageType.Level()) && old(fa.free) != {} ==>
      OnlyEmptied(old(pm.words), pm.words, F, table / PAGE_SIZE, Page(vaddr), pageType.Level())
  {
    hide LoopState, Valid, Unchanged, OnlyEmptied, MapsBlock, Maintains, WalkFrom, PathFrom, Index, IndexAt, FramesFit, Page;
    ghost var root, n, level, words := table / PAGE_SIZE, Page(vaddr), pageType.Level(), pm.words;
    ghost var path := PathFrom(words, root, 4, n);
    F' := F;
    var mapping := TranslateMapping(pm, table, vaddr, F);
    var entries := mapping.Entries();
    var depth := match pageType case Page1G => 2 case Page2M => 3 case Page4K => 4;
    var (p4, p3, p2, p1) := Index(vaddr);
    var indices := [p4, p3, p2, p1];
    IndexIsPath(vaddr);
    if depth < 4 && entries[depth].Some? {
      NothingWritten(words, F, fa.free, root, n, level);
      return false, F';
    }
    var entry;
    ghost var tables;
    entry, tables, F' := CreateTables(pm, fa, words, F, root, n, level, depth, indices, mapping, pageFlags);
    if entry.None? {
      LoopStateGives(words, F, old(fa.free), pm.words, F', fa.free, root, n, level, tables);
      return false, F';
    }
    LoopStateGives(words, F, old(fa.free), pm.words, F', fa.free, root, n, level, tables);
    WriteLeaf(pm, words, F, old(fa.free), F', fa.free, root, n, tables, entry.value, paddr, pageType, pageFlags);
    return true, F';
  }

  /** `MemoryRegionFlags`; the code gives no meaning to `READ` and `EXECUTE`. */
  datatype RegionFlags = RegionFlags(read: bool, write: bool, execute: bool, disableCache: bool)

  function PageFlags(flags: RegionFlags): EntryFlags {
    EntryFlags(true, flags.write, true, flags.disableCache, false)
  }

  /** `map_raw`, and `map_raw_user`, whose body is the same. */
  method MapRaw(pm: PhysicalMemory, fa: BitmapFrameAllocator, ghost F: Forest, table: nat,
                vaddr: nat, paddr: nat, pageType: PageType, flags: RegionFlags)
    returns (ok: bool, ghost F': Forest)
    requires pm.Valid() && fa.Valid() && {pm as object, fa} !! fa.Repr && pm as object != fa
    requires table % PAGE_SIZE == 0 && Request(pm.words, F, table / PAGE_SIZE, Page(vaddr)) && F.user
    requires FramesFit(pm.words, F, fa.free)
    requires paddr % (PAGE_SIZE * Reach(pageType.Level())) == 0 && paddr / PAGE_SIZE < FRAME_LIMIT
    modifies pm, fa`free, fa.Repr
    ensures pm.Valid() && fa.Valid() && fa.Repr == old(fa.Repr) && fa.regions == old(fa.regions)
    ensures Maintains(old(pm.words), F, old(fa.free), pm.words, F', fa.free, table / PAGE_SIZE, Page(vaddr), pageType.Level())
    ensures ok ==> MapsBlock(old(pm.words), pm.words, F, table / PAGE_SIZE, Page(vaddr), pageType.Level(),
                             paddr / PAGE_SIZE, PageFlags(flags))
    ensures ok <==> Possible(old(pm.words), table / PAGE_SIZE, Page(vaddr), pageType.Level(), |old(fa.free)|)
    ensures ok ==> |fa.free| + MissingTables(old(pm.words), table / PAGE_SIZE, Page(vaddr), pageType.Level()) == |old(fa.free)|
    ensures !ok ==> fa.free == {} || BlockedBelow(old(pm.words), table / PAGE_SIZE, Page(vaddr), pageType.Level())
    ensures BlockedBelow(old(pm.words), table / PAGE_SIZE, Page(vaddr), pageType.Level()) || old(fa.free) == {} ==>
      ok || (pm.words == old(pm.words) && fa.free == old(fa.free))
  {
    assert PageFlags(flags).present && !PageFlags(flags).size && PageFlags(flags).user;
    hide *;
    ok, F' := MapRawOption(pm, fa, F, table, vaddr, paddr, pageType, PageFlags(flags));
  }

  // What the invariant says about the trees.

  /** A table is reached through one entry only; just the tables directly below the kernel half
      of the top level hang in several roots, at the same index in each. */
  lemma OneParent(mem: seq<Word>, F: Forest, f: nat, i: nat, g: nat, j: nat)
    requires Valid(mem, F) && f in F.nodes && g in F.nodes && i < SLOTS && j < SLOTS
    requires Slot(f, i) < |mem| && IsPointer(mem[Slot(f, i)], F.nodes[f].level)
    requires Slot(g, j) < |mem| && IsPointer(mem[Slot(g, j)], F.nodes[g].level)
    requires FrameOf(mem[Slot(f, i)]) == FrameOf(mem[Slot(g, j)])
    ensures i == j
    ensures f == g || (F.nodes[f].level == F.nodes[g].level == 4 && i >= KERNEL_SLOT)
  {
    assert FrameOk(mem, F, f) && FrameOk(mem, F, g) && EntryOk(mem, F, f, i) && EntryOk(mem, F, g, j);
    PrefixSplit(F.nodes[f].prefix, i);
    PrefixSplit(F.nodes[g].prefix, j);
    assert F.nodes[f].level == F.nodes[g].level;
    assert F.nodes[f].prefix == F.nodes[g].prefix;
  }

  /** The entry that maps a page, if one does. */
  function LeafOf(mem: seq<Word>, f: nat, level: nat, n: nat): Word
    requires 1 <= level <= 4
    decreases level
  {
    var e := EntryOn(mem, f, level, n);
    if IsPointer(e, level) then LeafOf(mem, FrameOf(e), level - 1, n) else e
  }

  /** Since every intermediate entry is writable and carries the forest's user bit, the rights
      ANDed over all levels are the leaf's own. */
  lemma {:induction false} RightsAreTheLeafs(mem: seq<Word>, F: Forest, f: nat, n: nat)
    requires Valid(mem, F) && F.user && f in F.nodes && FrameOk(mem, F, f) && Serves(F, f, n)
    requires WalkFrom(mem, f, F.nodes[f].level, n).Some?
    ensures var m, e := WalkFrom(mem, f, F.nodes[f].level, n).value, LeafOf(mem, f, F.nodes[f].level, n);
      m.write == Writable(e) && m.user == UserMode(e) && m.cacheDisable == CacheDisabled(e)
    decreases F.nodes[f].level
  {
    var level := F.nodes[f].level;
    var e := EntryOn(mem, f, level, n);
    Child(mem, F, f, n);
    if IsPointer(e, level) {
      assert FrameOk(mem, F, FrameOf(e));
      RightsAreTheLeafs(mem, F, FrameOf(e), n);
    }
  }

  /** No entry of the table is present, whatever else its words hold. */
  ghost predicate NothingPresent(mem: seq<Word>, f: nat) {
    Slot(f, SLOTS) <= |mem| && forall j: nat | j < SLOTS :: !Present(mem[Slot(f, j)])
  }

  lemma EmptyIsNothing(mem: seq<Word>, f: nat)
    requires EmptyTable(mem, f)
    ensures NothingPresent(mem, f)
  {
    forall j: nat | j < SLOTS ensures !Present(mem[Slot(f, j)]) { assert mem[Slot(f, j)] == 0; }
  }

  /** A frame without a present entry is a tree that maps nothing. */
  lemma EmptyRoot(mem: seq<Word>, c: nat, user: bool)
    requires NothingPresent(mem, c) && c < FRAME_LIMIT
    ensures Valid(mem, FirstForest(c, user)) && OneRoot(FirstForest(c, user))
    ensures forall n: nat | n < PAGES :: WalkPage(mem, c, n) == None
  {
    var F := FirstForest(c, user);
    forall n: nat | n < PAGES ensures WalkPage(mem, c, n) == None {
      assert !Present(mem[Slot(c, IndexAt(4, n))]);
    }
    forall i: nat | i < SLOTS ensures EntryOk(mem, F, c, i) {
      assert !Present(mem[Slot(c, i)]);
    }
  }

  /** Exactly such a frame can become a root: any present entry would name a table that is none. */
  lemma EmptyRootIff(mem: seq<Word>, c: nat, user: bool)
    requires c < FRAME_LIMIT && Slot(c, SLOTS) <= |mem|
    ensures Valid(mem, FirstForest(c, user)) <==> NothingPresent(mem, c)
  {
    var F := FirstForest(c, user);
    if NothingPresent(mem, c) { EmptyRoot(mem, c, user); }
    if Valid(mem, F) {
      forall j: nat | j < SLOTS ensures !Present(mem[Slot(c, j)]) {
        assert EntryOk(mem, F, c, j);
      }
    }
  }
}
