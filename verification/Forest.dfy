/** The tables of all address spaces at once. A forest records, for every frame that holds
    a table, its level, the block of pages it serves and the address space that owns it;
    tables below the kernel half of the top level are owned by the kernel and may be
    reached from every root. */
module Forests {
  import opened Wrappers
  import opened Entries
  import opened Walks

  const KERNEL_SLOT: nat := 256

  datatype Owner = Kernel | Space(root: nat)

  datatype Node = Node(owner: Owner, level: nat, prefix: nat, parent: nat)

  /** `kroot` is the reference root, the only one whose kernel half gains tables; `user` is
      the user bit that every intermediate entry carries. */
  datatype Forest = Forest(nodes: map<nat, Node>, kroot: nat, user: bool)

  function ChildOf(F: Forest, f: nat, i: nat): Node
    requires f in F.nodes && F.nodes[f].level > 1
  {
    var nd := F.nodes[f];
    var shared := nd.level == 4 && i >= KERNEL_SLOT;
    Node(if shared then Kernel else nd.owner, nd.level - 1, nd.prefix * SLOTS + i,
         if shared then F.kroot else f)
  }

  ghost predicate FrameOk(mem: seq<Word>, F: Forest, f: nat)
    requires f in F.nodes
  {
    && 1 <= F.nodes[f].level <= 4
    && f < FRAME_LIMIT && Slot(f, SLOTS) <= |mem|
    && (F.nodes[f].level == 4 ==> F.nodes[f] == Node(Space(f), 4, 0, f))
  }

  /** The entry in the parent through which a table hangs. */
  ghost predicate ParentOk(mem: seq<Word>, F: Forest, f: nat)
    requires f in F.nodes
  {
    var nd := F.nodes[f];
    var s := Slot(nd.parent, nd.prefix % SLOTS);
    && nd.parent in F.nodes && F.nodes[nd.parent].level == nd.level + 1
    && s < |mem| && IsPointer(mem[s], nd.level + 1) && FrameOf(mem[s]) == f
  }

  ghost predicate EntryOk(mem: seq<Word>, F: Forest, f: nat, i: nat)
    requires f in F.nodes && Slot(f, i) < |mem|
  {
    var e, level := mem[Slot(f, i)], F.nodes[f].level;
    && (level == 4 && Present(e) ==> !Large(e))
    && (IsPointer(e, level) ==>
          && FrameOf(e) in F.nodes && F.nodes[FrameOf(e)] == ChildOf(F, f, i)
          && Writable(e) && UserMode(e) == F.user)
  }

  ghost predicate SameKey(a: Node, b: Node) {
    a.owner == b.owner && a.level == b.level && a.prefix == b.prefix
  }

  ghost predicate FramesOk(mem: seq<Word>, F: Forest) {
    forall f | f in F.nodes :: FrameOk(mem, F, f)
  }

  ghost predicate ParentsOk(mem: seq<Word>, F: Forest) {
    forall f | f in F.nodes && F.nodes[f].level < 4 :: ParentOk(mem, F, f)
  }

  ghost predicate EntriesOk(mem: seq<Word>, F: Forest)
    requires FramesOk(mem, F)
  {
    forall f, i: nat | f in F.nodes && i < SLOTS :: EntryOk(mem, F, f, i)
  }

  ghost predicate KeysUnique(F: Forest) {
    forall f, g | f in F.nodes && g in F.nodes && SameKey(F.nodes[f], F.nodes[g]) :: f == g
  }

  ghost predicate Valid(mem: seq<Word>, F: Forest) {
    FramesOk(mem, F) && ParentsOk(mem, F) && EntriesOk(mem, F) && KeysUnique(F) && IsRoot(F, F.kroot)
  }

  ghost predicate IsRoot(F: Forest, r: nat) {
    r in F.nodes && F.nodes[r].level == 4
  }

  ghost predicate Serves(F: Forest, f: nat, n: nat)
    requires f in F.nodes && 1 <= F.nodes[f].level <= 4
  {
    Block(F.nodes[f].level + 1, n) == F.nodes[f].prefix
  }

  /** Whether the walk of page `n` from `f` passes through the table `g`. */
  ghost predicate Visits(mem: seq<Word>, f: nat, level: nat, n: nat, g: nat, glevel: nat)
    requires 1 <= level <= 4
    decreases level
  {
    if level <= glevel then level == glevel && f == g
    else
      var s := Slot(f, IndexAt(level, n));
      s < |mem| && IsPointer(mem[s], level) && Visits(mem, FrameOf(mem[s]), level - 1, n, g, glevel)
  }

  /** Which roots reach the table `g`: the root itself, the owner of a private table, and, for
      a kernel table, every root that has its top-level entry. */
  ghost predicate Sees(mem: seq<Word>, F: Forest, r: nat, n: nat, g: nat)
    requires g in F.nodes
  {
    if F.nodes[g].level == 4 then r == g
    else match F.nodes[g].owner
      case Space(o) => r == o
      case Kernel => Slot(r, IndexAt(4, n)) < |mem| && Present(mem[Slot(r, IndexAt(4, n))])
  }

  /** The tables stay as they are except for the word of entry `i` of table `g`. */
  ghost predicate AgreeExcept(mem: seq<Word>, mem': seq<Word>, F: Forest, g: nat, i: nat) {
    && |mem'| == |mem|
    && forall f, j | f in F.nodes && 0 <= j < SLOTS && Slot(f, j) < |mem| && (f != g || j != i) ::
         mem'[Slot(f, j)] == mem[Slot(f, j)]
  }

  lemma Child(mem: seq<Word>, F: Forest, f: nat, n: nat)
    requires Valid(mem, F) && f in F.nodes && Serves(F, f, n)
    ensures Slot(f, IndexAt(F.nodes[f].level, n)) < |mem|
    ensures var e, level := mem[Slot(f, IndexAt(F.nodes[f].level, n))], F.nodes[f].level;
      IsPointer(e, level) ==>
        && FrameOf(e) in F.nodes && F.nodes[FrameOf(e)] == ChildOf(F, f, IndexAt(level, n))
        && Serves(F, FrameOf(e), n) && Writable(e) && UserMode(e) == F.user
  {
    var level := F.nodes[f].level;
    assert FrameOk(mem, F, f);
    assert EntryOk(mem, F, f, IndexAt(level, n));
    BlockSplit(level, n);
  }

  lemma {:induction false} WalkUnread(mem: seq<Word>, mem': seq<Word>, F: Forest, f: nat, n: nat, g: nat, i: nat)
    requires Valid(mem, F) && f in F.nodes && Serves(F, f, n)
    requires g in F.nodes && AgreeExcept(mem, mem', F, g, i)
    requires !Visits(mem, f, F.nodes[f].level, n, g, F.nodes[g].level) || IndexAt(F.nodes[g].level, n) != i
    ensures WalkFrom(mem', f, F.nodes[f].level, n) == WalkFrom(mem, f, F.nodes[f].level, n)
    decreases F.nodes[f].level
  {
    var level := F.nodes[f].level;
    Child(mem, F, f, n);
    var s := Slot(f, IndexAt(level, n));
    assert mem'[s] == mem[s];
    if IsPointer(mem[s], level) {
      WalkUnread(mem, mem', F, FrameOf(mem[s]), n, g, i);
    }
  }

  /** Which table a walk passes through is decided by ownership alone. */
  lemma {:induction false} VisitsOwner(mem: seq<Word>, F: Forest, f: nat, n: nat, g: nat)
    requires Valid(mem, F) && f in F.nodes && Serves(F, f, n) && g in F.nodes
    requires Visits(mem, f, F.nodes[f].level, n, g, F.nodes[g].level)
    ensures Serves(F, g, n)
    ensures F.nodes[f].level < 4 ==> F.nodes[g].owner == F.nodes[f].owner
    ensures F.nodes[f].level == 4 ==> Sees(mem, F, f, n, g)
    decreases F.nodes[f].level
  {
    var level := F.nodes[f].level;
    assert FrameOk(mem, F, f) && FrameOk(mem, F, g);
    if level > F.nodes[g].level {
      Child(mem, F, f, n);
      VisitsOwner(mem, F, FrameOf(mem[Slot(f, IndexAt(level, n))]), n, g);
    }
  }

  lemma {:induction false} VisitsStep(mem: seq<Word>, f: nat, level: nat, n: nat, p: nat, plevel: nat, g: nat)
    requires 1 < plevel <= level <= 4 && Visits(mem, f, level, n, p, plevel)
    ensures Visits(mem, f, level, n, g, plevel - 1) <==>
      var s := Slot(p, IndexAt(plevel, n)); s < |mem| && IsPointer(mem[s], plevel) && FrameOf(mem[s]) == g
    decreases level
  {
    if level > plevel {
      VisitsStep(mem, FrameOf(mem[Slot(f, IndexAt(level, n))]), level - 1, n, p, plevel, g);
    }
  }

  lemma ParentServes(mem: seq<Word>, F: Forest, g: nat, n: nat)
    requires Valid(mem, F) && g in F.nodes && F.nodes[g].level < 4
    requires FrameOk(mem, F, g) && Serves(F, g, n)
    ensures var p, nd := F.nodes[g].parent, F.nodes[g];
      && p in F.nodes && F.nodes[p].level == nd.level + 1 && Serves(F, p, n)
      && IndexAt(nd.level + 1, n) == nd.prefix % SLOTS
      && nd == ChildOf(F, p, nd.prefix % SLOTS)
  {
    var p, nd := F.nodes[g].parent, F.nodes[g];
    assert ParentOk(mem, F, g);
    assert FrameOk(mem, F, p);
    assert EntryOk(mem, F, p, nd.prefix % SLOTS);
    BlockSplit(nd.level + 1, n);
  }

  lemma SeenBelowRoot(mem: seq<Word>, F: Forest, r: nat, n: nat, g: nat)
    requires Valid(mem, F) && IsRoot(F, r) && Serves(F, r, n)
    requires g in F.nodes && F.nodes[g].level == 3 && Serves(F, g, n) && Sees(mem, F, r, n, g)
    ensures Visits(mem, r, 4, n, g, 3)
  {
    var p, nd := F.nodes[g].parent, F.nodes[g];
    assert FrameOk(mem, F, g) && ParentOk(mem, F, g);
    ParentServes(mem, F, g, n);
    assert FrameOk(mem, F, p) && FrameOk(mem, F, r);
    Child(mem, F, r, n);
    var e := mem[Slot(r, IndexAt(4, n))];
    if p != r {
      assert EntryOk(mem, F, r, IndexAt(4, n));
      assert SameKey(F.nodes[FrameOf(e)], nd);
    }
  }

  lemma {:induction false} SeenIsVisited(mem: seq<Word>, F: Forest, r: nat, n: nat, g: nat)
    requires Valid(mem, F) && IsRoot(F, r) && n < PAGES
    requires g in F.nodes && FrameOk(mem, F, g) && Serves(F, g, n) && Sees(mem, F, r, n, g)
    ensures Visits(mem, r, 4, n, g, F.nodes[g].level)
    decreases 4 - F.nodes[g].level
  {
    var nd := F.nodes[g];
    if nd.level < 4 {
      var p := nd.parent;
      ParentServes(mem, F, g, n);
      assert FrameOk(mem, F, p) && ParentOk(mem, F, g);
      if nd.level == 3 {
        SeenBelowRoot(mem, F, r, n, g);
      } else {
        SeenIsVisited(mem, F, r, n, p);
        VisitsStep(mem, r, 4, n, p, nd.level + 1, g);
      }
    }
  }

  lemma VisitsIffSees(mem: seq<Word>, F: Forest, r: nat, n: nat, g: nat)
    requires Valid(mem, F) && IsRoot(F, r) && n < PAGES && g in F.nodes
    ensures 1 <= F.nodes[g].level <= 4
    ensures Visits(mem, r, 4, n, g, F.nodes[g].level) <==> Serves(F, g, n) && Sees(mem, F, r, n, g)
  {
    assert FrameOk(mem, F, g) && FrameOk(mem, F, r);
    if Visits(mem, r, 4, n, g, F.nodes[g].level) {
      VisitsOwner(mem, F, r, n, g);
    } else if Serves(F, g, n) && Sees(mem, F, r, n, g) {
      SeenIsVisited(mem, F, r, n, g);
    }
  }

  lemma RestrictNothing(m: Option<Mapping>)
    ensures Restrict(m, true, true) == m
  {}

  lemma RestrictTwice(m: Option<Mapping>, a: bool, b: bool)
    ensures Restrict(Restrict(m, true, a), true, b) == Restrict(m, true, a && b)
  {}

  /** A walk through the table `g` yields what `g` yields, under the user bit of the tables above. */
  lemma {:induction false} WalkThrough(mem: seq<Word>, F: Forest, f: nat, n: nat, g: nat)
    requires Valid(mem, F) && f in F.nodes && Serves(F, f, n) && g in F.nodes
    requires Visits(mem, f, F.nodes[f].level, n, g, F.nodes[g].level)
    ensures WalkFrom(mem, f, F.nodes[f].level, n) ==
      Restrict(WalkFrom(mem, g, F.nodes[g].level, n), true, f == g || F.user)
    decreases F.nodes[f].level
  {
    var level := F.nodes[f].level;
    if level == F.nodes[g].level {
      RestrictNothing(WalkFrom(mem, g, level, n));
    } else {
      Child(mem, F, f, n);
      assert FrameOk(mem, F, f);
      var e := mem[Slot(f, IndexAt(level, n))];
      var c := FrameOf(e);
      WalkThrough(mem, F, c, n, g);
      RestrictTwice(WalkFrom(mem, g, F.nodes[g].level, n), c == g || F.user, F.user);
    }
  }

  // Writing one entry.

  ghost predicate Extends(F: Forest, F': Forest) {
    && F'.kroot == F.kroot && F'.user == F.user
    && forall f | f in F.nodes :: f in F'.nodes && F'.nodes[f] == F.nodes[f]
  }

  /** The page's walk from `r` reads entry `i` of table `g`. */
  ghost predicate ReadsEntry(mem: seq<Word>, F: Forest, r: nat, n: nat, g: nat, i: nat)
    requires g in F.nodes && 1 <= F.nodes[g].level <= 4
  {
    Block(F.nodes[g].level, n) == F.nodes[g].prefix * SLOTS + i && Sees(mem, F, r, n, g)
  }

  /** Writing an entry of `g` does not change who reaches `g`. */
  lemma StillSees(mem: seq<Word>, F: Forest, mem': seq<Word>, F': Forest, g: nat, i: nat, r: nat, n: nat)
    requires Valid(mem, F) && Valid(mem', F') && Extends(F, F')
    requires g in F.nodes && i < SLOTS && AgreeExcept(mem, mem', F, g, i)
    requires IsRoot(F, r) && n < PAGES && 1 <= F.nodes[g].level <= 4 && ReadsEntry(mem, F, r, n, g, i)
    ensures Serves(F', g, n) && Sees(mem', F', r, n, g) && IsRoot(F', r) && Serves(F', r, n)
  {
    RootServes(mem, F, r, n);
    BlockSplit(F.nodes[g].level, n);
    hide Valid, Block, IndexAt;
    if F.nodes[g].level < 4 && F.nodes[g].owner == Kernel {
      var j := IndexAt(4, n);
      assert j < SLOTS && r != g;
      assert mem'[Slot(r, j)] == mem[Slot(r, j)];
    }
  }

  lemma RootServes(mem: seq<Word>, F: Forest, r: nat, n: nat)
    requires Valid(mem, F) && IsRoot(F, r) && n < PAGES
    ensures Serves(F, r, n) && Slot(r, IndexAt(4, n)) < |mem|
  {
    assert FrameOk(mem, F, r);
  }

  /** The walk of a page that reads the written entry goes on from `g`. */
  lemma WalkReads(mem: seq<Word>, F: Forest, mem': seq<Word>, F': Forest, g: nat, i: nat, r: nat, n: nat)
    requires Valid(mem, F) && Valid(mem', F') && Extends(F, F')
    requires g in F.nodes && i < SLOTS && AgreeExcept(mem, mem', F, g, i)
    requires IsRoot(F, r) && n < PAGES && 1 <= F.nodes[g].level <= 4 && ReadsEntry(mem, F, r, n, g, i)
    ensures WalkPage(mem', r, n) == Restrict(WalkFrom(mem', g, F.nodes[g].level, n), true, r == g || F.user)
  {
    StillSees(mem, F, mem', F', g, i, r, n);
    hide Valid, Sees, AgreeExcept, ReadsEntry, WalkFrom, Restrict;
    VisitsIffSees(mem', F', r, n, g);
    WalkThrough(mem', F', r, n, g);
  }

  /** The walk of any other page is as before. */
  lemma WalkSkips(mem: seq<Word>, F: Forest, mem': seq<Word>, g: nat, i: nat, r: nat, n: nat)
    requires Valid(mem, F) && g in F.nodes && i < SLOTS && AgreeExcept(mem, mem', F, g, i)
    requires IsRoot(F, r) && n < PAGES && 1 <= F.nodes[g].level <= 4 && !ReadsEntry(mem, F, r, n, g, i)
    ensures WalkPage(mem', r, n) == WalkPage(mem, r, n)
  {
    RootServes(mem, F, r, n);
    VisitsIffSees(mem, F, r, n, g);
    BlockSplit(F.nodes[g].level, n);
    hide Valid, Sees, AgreeExcept, WalkFrom;
    WalkUnread(mem, mem', F, r, n, g, i);
  }

  lemma WalkAfterWrite(mem: seq<Word>, F: Forest, mem': seq<Word>, F': Forest, g: nat, i: nat, r: nat, n: nat)
    requires Valid(mem, F) && Valid(mem', F') && Extends(F, F')
    requires g in F.nodes && i < SLOTS && AgreeExcept(mem, mem', F, g, i)
    requires IsRoot(F, r) && n < PAGES
    ensures 1 <= F.nodes[g].level <= 4
    ensures WalkPage(mem', r, n) ==
      if ReadsEntry(mem, F, r, n, g, i)
      then Restrict(WalkFrom(mem', g, F.nodes[g].level, n), true, r == g || F.user)
      else WalkPage(mem, r, n)
  {
    VisitsIffSees(mem, F, r, n, g);
    hide Valid, Sees, AgreeExcept, WalkFrom, Restrict, ReadsEntry;
    if ReadsEntry(mem, F, r, n, g, i) {
      WalkReads(mem, F, mem', F', g, i, r, n);
    } else {
      WalkSkips(mem, F, mem', g, i, r, n);
    }
  }

  lemma PrefixSplit(prefix: nat, i: nat)
    requires i < SLOTS
    ensures (prefix * SLOTS + i) % SLOTS == i && (prefix * SLOTS + i) / SLOTS == prefix
  {}

  lemma SlotsApart(f: nat, i: nat, g: nat, j: nat)
    requires i < SLOTS && j < SLOTS
    ensures Slot(f, i) == Slot(g, j) ==> f == g && i == j
    ensures Slot(g, 0) <= Slot(f, i) < Slot(g, SLOTS) ==> f == g
  {}

  /** A new word in entry `i` of `g` that keeps the tables. */
  ghost predicate Writes(mem: seq<Word>, F: Forest, mem': seq<Word>, F': Forest, g: nat, i: nat) {
    && g in F.nodes && i < SLOTS && Slot(g, i) < |mem|
    && AgreeExcept(mem, mem', F, g, i) && Extends(F, F')
    && !IsPointer(mem[Slot(g, i)], F.nodes[g].level)
  }

  lemma ParentKept(mem: seq<Word>, F: Forest, mem': seq<Word>, F': Forest, g: nat, i: nat, f: nat)
    requires Writes(mem, F, mem', F', g, i)
    requires f in F.nodes && ParentOk(mem, F, f)
    ensures ParentOk(mem', F', f)
  {
    var p, j := F.nodes[f].parent, F.nodes[f].prefix % SLOTS;
    assert p != g || j != i;
  }

  lemma EntryKept(mem: seq<Word>, F: Forest, mem': seq<Word>, F': Forest, f: nat, j: nat)
    requires Extends(F, F') && f in F.nodes && Slot(f, j) < |mem| == |mem'|
    requires EntryOk(mem, F, f, j) && mem'[Slot(f, j)] == mem[Slot(f, j)]
    ensures EntryOk(mem', F', f, j)
  {}

  lemma LeafKeepsValid(mem: seq<Word>, F: Forest, mem': seq<Word>, g: nat, i: nat)
    requires Valid(mem, F) && Writes(mem, F, mem', F, g, i) && F.nodes[g].level < 4
    requires IsLeaf(mem'[Slot(g, i)], F.nodes[g].level)
    ensures Valid(mem', F)
  {
    assert FramesOk(mem', F) by {
      forall f | f in F.nodes ensures FrameOk(mem', F, f) { assert FrameOk(mem, F, f); }
    }
    assert ParentsOk(mem', F) by {
      forall f | f in F.nodes && F.nodes[f].level < 4 ensures ParentOk(mem', F, f) {
        ParentKept(mem, F, mem', F, g, i, f);
      }
    }
    forall f, j: nat | f in F.nodes && j < SLOTS ensures EntryOk(mem', F, f, j) {
      assert FrameOk(mem, F, f);
      if f != g || j != i { EntryKept(mem, F, mem', F, f, j); }
    }
  }

  lemma WriteAgrees(mem: seq<Word>, F: Forest, g: nat, i: nat, e: Word)
    requires g in F.nodes && i < SLOTS && Slot(g, i) < |mem|
    ensures AgreeExcept(mem, mem[Slot(g, i) := e], F, g, i)
  {
    forall f, j: nat | j < SLOTS && (f != g || j != i) ensures Slot(f, j) != Slot(g, i) {
      SlotsApart(f, j, g, i);
    }
  }

  lemma LeafWritten(mem: seq<Word>, F: Forest, g: nat, i: nat, e: Word)
    requires Valid(mem, F) && g in F.nodes && i < SLOTS && F.nodes[g].level < 4
    requires IsLeaf(e, F.nodes[g].level) && Slot(g, i) < |mem| && !IsPointer(mem[Slot(g, i)], F.nodes[g].level)
    ensures 1 <= F.nodes[g].level
    ensures Valid(mem[Slot(g, i) := e], F)
    ensures forall r, n: nat | IsRoot(F, r) && n < PAGES ::
      WalkPage(mem[Slot(g, i) := e], r, n) ==
        if ReadsEntry(mem, F, r, n, g, i)
        then Restrict(Some(LeafMapping(e, F.nodes[g].level, n)), true, F.user)
        else WalkPage(mem, r, n)
  {
    assert FrameOk(mem, F, g);
    WriteAgrees(mem, F, g, i, e);
    LeafKeepsValid(mem, F, mem[Slot(g, i) := e], g, i);
    forall r, n: nat | IsRoot(F, r) && n < PAGES
      ensures WalkPage(mem[Slot(g, i) := e], r, n) ==
        if ReadsEntry(mem, F, r, n, g, i)
        then Restrict(Some(LeafMapping(e, F.nodes[g].level, n)), true, F.user)
        else WalkPage(mem, r, n)
    {
      LeafWalk(mem, F, mem[Slot(g, i) := e], g, i, r, n);
    }
  }

  lemma LeafWalk(mem: seq<Word>, F: Forest, mem': seq<Word>, g: nat, i: nat, r: nat, n: nat)
    requires Valid(mem, F) && Valid(mem', F) && Writes(mem, F, mem', F, g, i)
    requires F.nodes[g].level < 4 && IsLeaf(mem'[Slot(g, i)], F.nodes[g].level)
    requires IsRoot(F, r) && n < PAGES
    ensures 1 <= F.nodes[g].level
    ensures WalkPage(mem', r, n) ==
      if ReadsEntry(mem, F, r, n, g, i)
      then Restrict(Some(LeafMapping(mem'[Slot(g, i)], F.nodes[g].level, n)), true, F.user)
      else WalkPage(mem, r, n)
  {
    WalkAfterWrite(mem, F, mem', F, g, i, r, n);
    if ReadsEntry(mem, F, r, n, g, i) {
      PrefixSplit(F.nodes[g].prefix, i);
    }
  }

  function ZeroFrame(mem: seq<Word>, c: nat): (z: seq<Word>)
    requires Slot(c, SLOTS) <= |mem|
    ensures |z| == |mem|
    ensures forall k | 0 <= k < |mem| :: z[k] == if Slot(c, 0) <= k < Slot(c, SLOTS) then 0 else mem[k]
  {
    seq(|mem|, k requires 0 <= k < |mem| => if Slot(c, 0) <= k < Slot(c, SLOTS) then 0 else mem[k])
  }

  function AddTable(F: Forest, f: nat, i: nat, c: nat): Forest
    requires f in F.nodes && F.nodes[f].level > 1
  {
    F.(nodes := F.nodes[c := ChildOf(F, f, i)])
  }

  /** Entry `i` of `f` may be filled with a table: it holds none, and a shared entry is only
      ever filled in the reference root. */
  ghost predicate EmptySlot(mem: seq<Word>, F: Forest, f: nat, i: nat) {
    && f in F.nodes && i < SLOTS && 1 < F.nodes[f].level <= 4
    && (F.nodes[f].level == 4 && i >= KERNEL_SLOT ==> f == F.kroot)
    && Slot(f, i) < |mem| && !IsPointer(mem[Slot(f, i)], F.nodes[f].level)
  }

  ghost predicate CanInstall(mem: seq<Word>, F: Forest, f: nat, i: nat, c: nat, e: Word) {
    && EmptySlot(mem, F, f, i)
    && c !in F.nodes && c < FRAME_LIMIT && Slot(c, SLOTS) <= |mem|
    && IsPointer(e, F.nodes[f].level) && FrameOf(e) == c && Writable(e) && UserMode(e) == F.user
  }

  /** An empty slot means that no table of the forest has the key of the slot's child. */
  lemma KeyIsFresh(mem: seq<Word>, F: Forest, f: nat, i: nat, h: nat)
    requires Valid(mem, F) && EmptySlot(mem, F, f, i) && h in F.nodes
    ensures !SameKey(F.nodes[h], ChildOf(F, f, i))
  {
    var nd := F.nodes[h];
    assert FrameOk(mem, F, f);
    if SameKey(nd, ChildOf(F, f, i)) {
      var p := nd.parent;
      assert ParentOk(mem, F, h) && FrameOk(mem, F, p);
      PrefixSplit(F.nodes[f].prefix, i);
      assert EntryOk(mem, F, p, i);
      assert nd == ChildOf(F, p, i);
      assert SameKey(F.nodes[p], F.nodes[f]);
      assert false;
    }
  }

  lemma InstallAgrees(mem: seq<Word>, F: Forest, f: nat, i: nat, c: nat, e: Word)
    requires FramesOk(mem, F) && CanInstall(mem, F, f, i, c, e)
    ensures var mem' := ZeroFrame(mem, c)[Slot(f, i) := e];
      && Writes(mem, F, mem', AddTable(F, f, i, c), f, i)
      && mem'[Slot(f, i)] == e && forall j: nat | j < SLOTS :: mem'[Slot(c, j)] == 0
  {
    var mem' := ZeroFrame(mem, c)[Slot(f, i) := e];
    forall h, j: nat | h in F.nodes && j < SLOTS && (h != f || j != i)
      ensures Slot(h, j) < |mem| && mem'[Slot(h, j)] == mem[Slot(h, j)]
    {
      assert FrameOk(mem, F, h);
      SlotsApart(h, j, f, i);
      SlotsApart(h, j, c, 0);
    }
    forall j: nat | j < SLOTS ensures mem'[Slot(c, j)] == 0 { SlotsApart(c, j, f, i); }
  }

  lemma InstallKeepsKeys(mem: seq<Word>, F: Forest, f: nat, i: nat, c: nat)
    requires Valid(mem, F) && EmptySlot(mem, F, f, i) && c !in F.nodes
    ensures KeysUnique(AddTable(F, f, i, c))
  {
    forall h | h in F.nodes ensures !SameKey(F.nodes[h], ChildOf(F, f, i)) {
      KeyIsFresh(mem, F, f, i, h);
    }
  }

  lemma InstallKeepsFrames(mem: seq<Word>, F: Forest, f: nat, i: nat, c: nat, e: Word)
    requires Valid(mem, F) && CanInstall(mem, F, f, i, c, e)
    ensures var mem', F' := ZeroFrame(mem, c)[Slot(f, i) := e], AddTable(F, f, i, c);
      FramesOk(mem', F') && ParentsOk(mem', F')
  {
    hide FrameOk, ParentOk, AgreeExcept;
    var mem', F' := ZeroFrame(mem, c)[Slot(f, i) := e], AddTable(F, f, i, c);
    forall h | h in F'.nodes ensures FrameOk(mem', F', h) {
      InstalledFrame(mem, F, f, i, c, e, h);
    }
    forall h | h in F'.nodes && F'.nodes[h].level < 4 ensures ParentOk(mem', F', h) {
      InstalledParent(mem, F, f, i, c, e, h);
    }
  }

  lemma InstalledFrame(mem: seq<Word>, F: Forest, f: nat, i: nat, c: nat, e: Word, h: nat)
    requires Valid(mem, F) && CanInstall(mem, F, f, i, c, e) && h in AddTable(F, f, i, c).nodes
    ensures FrameOk(ZeroFrame(mem, c)[Slot(f, i) := e], AddTable(F, f, i, c), h)
  {
    if h in F.nodes { assert FrameOk(mem, F, h); }
  }

  lemma InstalledParent(mem: seq<Word>, F: Forest, f: nat, i: nat, c: nat, e: Word, h: nat)
    requires Valid(mem, F) && CanInstall(mem, F, f, i, c, e)
    requires h in AddTable(F, f, i, c).nodes && AddTable(F, f, i, c).nodes[h].level < 4
    ensures ParentOk(ZeroFrame(mem, c)[Slot(f, i) := e], AddTable(F, f, i, c), h)
  {
    InstallAgrees(mem, F, f, i, c, e);
    hide Valid, AgreeExcept, ZeroFrame;
    if h == c {
      NewParent(mem, ZeroFrame(mem, c)[Slot(f, i) := e], F, f, i, c, e);
    } else {
      hide CanInstall, ParentOk;
      ParentThere(mem, F, h);
      ParentKept(mem, F, ZeroFrame(mem, c)[Slot(f, i) := e], AddTable(F, f, i, c), f, i, h);
    }
  }

  lemma NewParent(mem: seq<Word>, mem': seq<Word>, F: Forest, f: nat, i: nat, c: nat, e: Word)
    requires CanInstall(mem, F, f, i, c, e) && |mem'| == |mem| && mem'[Slot(f, i)] == e
    ensures ParentOk(mem', AddTable(F, f, i, c), c)
  {
    hide IsPointer;
    PrefixSplit(F.nodes[f].prefix, i);
    KernelParent(mem, F, f, i);
  }

  lemma KernelParent(mem: seq<Word>, F: Forest, f: nat, i: nat)
    requires EmptySlot(mem, F, f, i)
    ensures ChildOf(F, f, i).parent == f
  {}

  lemma ParentThere(mem: seq<Word>, F: Forest, h: nat)
    requires Valid(mem, F) && h in F.nodes && F.nodes[h].level < 4
    ensures ParentOk(mem, F, h)
  {}

  lemma InstallKeepsEntry(mem: seq<Word>, F: Forest, f: nat, i: nat, c: nat, e: Word, h: nat, j: nat)
    requires Valid(mem, F) && CanInstall(mem, F, f, i, c, e)
    requires h in AddTable(F, f, i, c).nodes && j < SLOTS
    ensures Slot(h, j) < |mem|
    ensures EntryOk(ZeroFrame(mem, c)[Slot(f, i) := e], AddTable(F, f, i, c), h, j)
  {
    var mem', F' := ZeroFrame(mem, c)[Slot(f, i) := e], AddTable(F, f, i, c);
    InstallAgrees(mem, F, f, i, c, e);
    if h == c {
      assert mem'[Slot(c, j)] == 0;
    } else if h != f || j != i {
      assert FrameOk(mem, F, h) && EntryOk(mem, F, h, j);
      EntryKept(mem, F, mem', F', h, j);
    } else {
      assert ChildOf(F', f, i) == ChildOf(F, f, i);
    }
  }

  lemma InstallKeepsValid(mem: seq<Word>, F: Forest, f: nat, i: nat, c: nat, e: Word)
    requires Valid(mem, F) && CanInstall(mem, F, f, i, c, e)
    ensures Valid(ZeroFrame(mem, c)[Slot(f, i) := e], AddTable(F, f, i, c))
  {
    var mem', F' := ZeroFrame(mem, c)[Slot(f, i) := e], AddTable(F, f, i, c);
    InstallKeepsKeys(mem, F, f, i, c);
    InstallKeepsFrames(mem, F, f, i, c, e);
    forall h, j: nat | h in F'.nodes && j < SLOTS ensures EntryOk(mem', F', h, j) {
      InstallKeepsEntry(mem, F, f, i, c, e, h, j);
    }
  }

  lemma InstallWalk(mem: seq<Word>, F: Forest, mem': seq<Word>, F': Forest, f: nat, i: nat, r: nat, n: nat)
    requires Valid(mem, F) && Valid(mem', F') && Writes(mem, F, mem', F', f, i) && F.nodes[f].level > 1
    requires IsPointer(mem'[Slot(f, i)], F.nodes[f].level)
    requires var c := FrameOf(mem'[Slot(f, i)]);
      Slot(c, SLOTS) <= |mem'| && forall j: nat | j < SLOTS :: mem'[Slot(c, j)] == 0
    requires IsRoot(F, r) && n < PAGES
    ensures F.nodes[f].level <= 4
    ensures WalkPage(mem', r, n) == if ReadsEntry(mem, F, r, n, f, i) then None else WalkPage(mem, r, n)
  {
    hide Valid, WalkFrom;
    WalkAfterWrite(mem, F, mem', F', f, i, r, n);
    if ReadsEntry(mem, F, r, n, f, i) {
      PrefixSplit(F.nodes[f].prefix, i);
      EmptyBehind(mem', f, F.nodes[f].level, n);
    }
  }

  /** Behind a pointer to an empty table nothing is mapped. */
  lemma EmptyBehind(mem: seq<Word>, f: nat, level: nat, n: nat)
    requires 1 < level <= 4 && Slot(f, IndexAt(level, n)) < |mem| && IsPointer(mem[Slot(f, IndexAt(level, n))], level)
    requires var c := FrameOf(mem[Slot(f, IndexAt(level, n))]);
      Slot(c, SLOTS) <= |mem| && forall j: nat | j < SLOTS :: mem[Slot(c, j)] == 0
    ensures WalkFrom(mem, f, level, n) == None
  {
    var c := FrameOf(mem[Slot(f, IndexAt(level, n))]);
    assert mem[Slot(c, IndexAt(level - 1, n))] == 0;
  }

  /** Hanging an empty table into an empty slot unmaps exactly the slot's block. */
  lemma TableInstalled(mem: seq<Word>, F: Forest, f: nat, i: nat, c: nat, e: Word)
    requires Valid(mem, F) && CanInstall(mem, F, f, i, c, e)
    ensures var mem', F' := ZeroFrame(mem, c)[Slot(f, i) := e], AddTable(F, f, i, c);
      && Valid(mem', F') && Extends(F, F')
      && forall r, n: nat | IsRoot(F, r) && n < PAGES ::
           WalkPage(mem', r, n) == if ReadsEntry(mem, F, r, n, f, i) then None else WalkPage(mem, r, n)
  {
    var mem', F' := ZeroFrame(mem, c)[Slot(f, i) := e], AddTable(F, f, i, c);
    InstallAgrees(mem, F, f, i, c, e);
    InstallKeepsValid(mem, F, f, i, c, e);
    forall r, n: nat | IsRoot(F, r) && n < PAGES
      ensures WalkPage(mem', r, n) == if ReadsEntry(mem, F, r, n, f, i) then None else WalkPage(mem, r, n)
    {
      InstallWalk(mem, F, mem', F', f, i, r, n);
    }
  }

  // One tree.

  ghost predicate OneRoot(F: Forest) {
    forall r | IsRoot(F, r) :: r == F.kroot
  }

  function FirstForest(c: nat, user: bool): Forest {
    Forest(map[c := Node(Space(c), 4, 0, c)], c, user)
  }

  lemma {:induction false} VisitsOne(mem: seq<Word>, f: nat, level: nat, n: nat, g: nat, h: nat, glevel: nat)
    requires 1 <= level <= 4 && Visits(mem, f, level, n, g, glevel) && Visits(mem, f, level, n, h, glevel)
    ensures g == h
    decreases level
  {
    if level > glevel {
      VisitsOne(mem, FrameOf(mem[Slot(f, IndexAt(level, n))]), level - 1, n, g, h, glevel);
    }
  }

  /** In a single tree every table is on the walk of the pages it serves. */
  lemma {:induction false} AllVisited(mem: seq<Word>, F: Forest, g: nat, n: nat)
    requires Valid(mem, F) && OneRoot(F) && g in F.nodes && FrameOk(mem, F, g) && Serves(F, g, n)
    ensures Visits(mem, F.kroot, 4, n, g, F.nodes[g].level)
    decreases 4 - F.nodes[g].level
  {
    if F.nodes[g].level < 4 {
      var p := F.nodes[g].parent;
      ParentServes(mem, F, g, n);
      assert FrameOk(mem, F, p) && ParentOk(mem, F, g);
      AllVisited(mem, F, p, n);
      VisitsStep(mem, F.kroot, 4, n, p, F.nodes[p].level, g);
    } else {
      assert IsRoot(F, g);
    }
  }
}
