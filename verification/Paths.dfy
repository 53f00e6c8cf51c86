/** The chain of tables that `translate_mapping` visits, and which roots share it. */
module Paths {
  import opened Entries
  import opened Walks
  import opened Forests

  /** The frames of the tables on the walk of page `n`, from the root downwards. */
  function PathFrom(mem: seq<Word>, f: nat, level: nat, n: nat): (p: seq<nat>)
    requires 1 <= level <= 4
    ensures 1 <= |p| <= level && p[0] == f
    decreases level
  {
    var s := Slot(f, IndexAt(level, n));
    if s < |mem| && IsPointer(mem[s], level) then [f] + PathFrom(mem, FrameOf(mem[s]), level - 1, n)
    else [f]
  }

  function EntryOn(mem: seq<Word>, f: nat, level: nat, n: nat): Word
    requires 1 <= level <= 4
  {
    var s := Slot(f, IndexAt(level, n));
    if s < |mem| then mem[s] else 0
  }

  predicate KernelHalf(n: nat) {
    IndexAt(4, n) >= KERNEL_SLOT
  }

  ghost predicate Link(mem: seq<Word>, F: Forest, root: nat, n: nat, tables: seq<nat>, k: nat)
    requires k < |tables| <= 4
  {
    && tables[k] in F.nodes && F.nodes[tables[k]].level == 4 - k && Serves(F, tables[k], n)
    && (k > 0 ==>
          var e := EntryOn(mem, tables[k - 1], 5 - k, n);
          && IsPointer(e, 5 - k) && FrameOf(e) == tables[k]
          && F.nodes[tables[k]].owner == if KernelHalf(n) then Kernel else Space(root))
  }

  /** `tables` is a chain of tables from `root` towards page `n`. */
  ghost predicate Chain(mem: seq<Word>, F: Forest, root: nat, n: nat, tables: seq<nat>) {
    && 1 <= |tables| <= 4 && tables[0] == root
    && forall k | 0 <= k < |tables| :: Link(mem, F, root, n, tables, k)
  }

  /** The roots whose walk of the block around page `n` goes through the same tables. */
  ghost predicate Shares(mem: seq<Word>, r: nat, root: nat, n: nat) {
    r == root || (KernelHalf(n) && Present(EntryOn(mem, r, 4, n)))
  }

  lemma LinkGives(mem: seq<Word>, F: Forest, root: nat, n: nat, tables: seq<nat>)
    requires Valid(mem, F) && Chain(mem, F, root, n, tables)
    ensures n < PAGES && tables[|tables| - 1] in F.nodes && F.nodes[tables[|tables| - 1]].level == 5 - |tables|
    ensures Serves(F, tables[|tables| - 1], n)
    ensures F.nodes[tables[|tables| - 1]].owner == if KernelHalf(n) && |tables| > 1 then Kernel else Space(root)
  {
    assert Link(mem, F, root, n, tables, |tables| - 1);
    assert Link(mem, F, root, n, tables, 0) && FrameOk(mem, F, root);
  }

  lemma NextLink(mem: seq<Word>, F: Forest, root: nat, n: nat, tables: seq<nat>)
    requires Valid(mem, F) && Chain(mem, F, root, n, tables) && |tables| < 4
    requires IsPointer(EntryOn(mem, tables[|tables| - 1], 5 - |tables|, n), 5 - |tables|)
    ensures Link(mem, F, root, n, tables + [FrameOf(EntryOn(mem, tables[|tables| - 1], 5 - |tables|, n))], |tables|)
  {
    hide Valid, FrameOk;
    LinkGives(mem, F, root, n, tables);
    Child(mem, F, tables[|tables| - 1], n);
  }

  lemma LinkStays(mem: seq<Word>, F: Forest, root: nat, n: nat, tables: seq<nat>, c: nat, j: nat)
    requires j < |tables| < 4 && Link(mem, F, root, n, tables, j)
    ensures Link(mem, F, root, n, tables + [c], j)
  {}

  lemma ChainExtend(mem: seq<Word>, F: Forest, root: nat, n: nat, tables: seq<nat>)
    requires Valid(mem, F) && Chain(mem, F, root, n, tables) && |tables| < 4
    requires IsPointer(EntryOn(mem, tables[|tables| - 1], 5 - |tables|, n), 5 - |tables|)
    ensures Chain(mem, F, root, n, tables + [FrameOf(EntryOn(mem, tables[|tables| - 1], 5 - |tables|, n))])
  {
    hide Valid, Link, EntryOn;
    var c := FrameOf(EntryOn(mem, tables[|tables| - 1], 5 - |tables|, n));
    NextLink(mem, F, root, n, tables);
    forall j | 0 <= j < |tables| ensures Link(mem, F, root, n, tables + [c], j) {
      LinkStays(mem, F, root, n, tables, c, j);
    }
  }

  lemma {:induction false} PathLink(mem: seq<Word>, F: Forest, root: nat, n: nat, k: nat)
    requires Valid(mem, F) && IsRoot(F, root) && n < PAGES && k < |PathFrom(mem, root, 4, n)|
    ensures var p := PathFrom(mem, root, 4, n);
      Link(mem, F, root, n, p, k) && p[k..] == PathFrom(mem, p[k], 4 - k, n)
  {
    var p := PathFrom(mem, root, 4, n);
    assert FrameOk(mem, F, root);
    if k > 0 {
      PathLink(mem, F, root, n, k - 1);
      Child(mem, F, p[k - 1], n);
      assert p[k - 1..][1..] == p[k..];
    }
  }

  /** The walk's own path is a chain, and it ends at an entry that is no pointer. */
  lemma PathIsChain(mem: seq<Word>, F: Forest, root: nat, n: nat)
    requires Valid(mem, F) && IsRoot(F, root) && n < PAGES
    ensures var p := PathFrom(mem, root, 4, n);
      && Chain(mem, F, root, n, p)
      && !IsPointer(EntryOn(mem, p[|p| - 1], 5 - |p|, n), 5 - |p|)
  {
    hide Valid, Link, PathFrom;
    var p := PathFrom(mem, root, 4, n);
    forall k | 0 <= k < |p| ensures Link(mem, F, root, n, p, k) {
      PathLink(mem, F, root, n, k);
    }
    PathEnds(mem, F, root, n);
  }

  lemma PathEnds(mem: seq<Word>, F: Forest, root: nat, n: nat)
    requires Valid(mem, F) && IsRoot(F, root) && n < PAGES
    ensures var p := PathFrom(mem, root, 4, n); !IsPointer(EntryOn(mem, p[|p| - 1], 5 - |p|, n), 5 - |p|)
  {
    hide Valid, Link;
    var p := PathFrom(mem, root, 4, n);
    PathLink(mem, F, root, n, |p| - 1);
    assert |PathFrom(mem, p[|p| - 1], 5 - |p|, n)| == 1;
  }

  /** A chain that ends at no pointer decides how the page is mapped. */
  lemma ChainLeafLevel(mem: seq<Word>, F: Forest, root: nat, n: nat, tables: seq<nat>)
    requires Valid(mem, F) && Chain(mem, F, root, n, tables) && n < PAGES
    requires !IsPointer(EntryOn(mem, tables[|tables| - 1], 5 - |tables|, n), 5 - |tables|)
    ensures LeafLevel(mem, root, n) ==
      if Present(EntryOn(mem, tables[|tables| - 1], 5 - |tables|, n)) then 5 - |tables| else 0
  {
    var k := |tables| - 1;
    var last := tables[k];
    assert Link(mem, F, root, n, tables, 0) && Link(mem, F, root, n, tables, k);
    assert FrameOk(mem, F, root) && FrameOk(mem, F, last);
    assert EntryOk(mem, F, last, IndexAt(4 - k, n));
    if k > 0 { assert Link(mem, F, root, n, tables, 1); }
    VisitsIffSees(mem, F, root, n, last);
    WalkThrough(mem, F, root, n, last);
  }

  /** An absent shared entry of the reference root is absent in every root. */
  lemma AbsentEverywhere(mem: seq<Word>, F: Forest, n: nat, r: nat)
    requires Valid(mem, F) && IsRoot(F, r) && n < PAGES && KernelHalf(n)
    requires !Present(EntryOn(mem, F.kroot, 4, n))
    ensures !Present(EntryOn(mem, r, 4, n))
  {
    assert FrameOk(mem, F, r) && FrameOk(mem, F, F.kroot);
    var i := IndexAt(4, n);
    assert EntryOk(mem, F, r, i);
    if Present(EntryOn(mem, r, 4, n)) {
      KeyIsFresh(mem, F, F.kroot, i, FrameOf(EntryOn(mem, r, 4, n)));
    }
  }

  /** Who reads the entry at the end of a chain. */
  lemma ChainReaders(mem: seq<Word>, F: Forest, root: nat, n: nat, tables: seq<nat>, k: nat, r: nat, m: nat)
    requires Valid(mem, F) && Chain(mem, F, root, n, tables) && k < |tables| && n < PAGES && m < PAGES
    requires IsRoot(F, r)
    requires k == 0 && KernelHalf(n) ==> root == F.kroot && !Present(EntryOn(mem, root, 4, n))
    ensures Link(mem, F, root, n, tables, k)
    ensures ReadsEntry(mem, F, r, m, tables[k], IndexAt(4 - k, n)) <==>
      Block(4 - k, m) == Block(4 - k, n) && Shares(mem, r, root, n)
  {
    var level := 4 - k;
    assert FrameOk(mem, F, r) && Link(mem, F, root, n, tables, k);
    BlockSplit(level, n);
    if Block(level, m) == Block(level, n) {
      SmallerBlock(level, 4, n, m);
      BlockSplit(4, n);
      BlockSplit(4, m);
      assert IndexAt(4, m) == IndexAt(4, n) && Link(mem, F, root, n, tables, k);
      if k > 0 {
        assert IsPointer(EntryOn(mem, tables[0], 4, n), 4) by { assert Link(mem, F, root, n, tables, 1); }
      } else if KernelHalf(n) {
        AbsentEverywhere(mem, F, n, r);
      }
    }
  }
}
