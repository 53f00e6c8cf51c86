/** Operations on top-level entries: a root cloned from the reference root, and a kernel entry
    copied from it (kernel/src/arch/x86_64/page_table.rs:405-423). */
module Spaces {
  import opened Entries
  import opened Walks
  import opened Forests
  import opened PageTables

  /** The reference root maps nothing in the user half. */
  ghost predicate KernelOnly(mem: seq<Word>, F: Forest) {
    forall i: nat | i < KERNEL_SLOT && Slot(F.kroot, i) < |mem| :: !Present(mem[Slot(F.kroot, i)])
  }

  lemma {:induction false} OwnerIsRoot(mem: seq<Word>, F: Forest, g: nat)
    requires Valid(mem, F) && g in F.nodes && F.nodes[g].owner.Space?
    ensures IsRoot(F, F.nodes[g].owner.root)
    decreases 4 - F.nodes[g].level
  {
    assert FrameOk(mem, F, g);
    if F.nodes[g].level < 4 {
      var p, i := F.nodes[g].parent, F.nodes[g].prefix % SLOTS;
      assert ParentOk(mem, F, g) && FrameOk(mem, F, p);
      assert EntryOk(mem, F, p, i);
      OwnerIsRoot(mem, F, p);
    }
  }

  // A new root.

  function AddRoot(F: Forest, c: nat): Forest {
    F.(nodes := F.nodes[c := Node(Space(c), 4, 0, c)])
  }

  /** `mem'` has a copy of the reference root in frame `c` and all old tables as they were. */
  ghost predicate Cloned(mem: seq<Word>, mem': seq<Word>, F: Forest, c: nat) {
    && c !in F.nodes && c < FRAME_LIMIT && |mem'| == |mem| && Slot(c, SLOTS) <= |mem|
    && (forall s | 0 <= s < |mem| && s / SLOTS != c :: mem'[s] == mem[s])
    && Slot(F.kroot, SLOTS) <= |mem|
    && (forall i: nat | i < SLOTS :: mem'[Slot(c, i)] == mem[Slot(F.kroot, i)])
  }

  lemma ClonedKeepsTables(mem: seq<Word>, mem': seq<Word>, F: Forest, c: nat)
    requires Valid(mem, F) && Cloned(mem, mem', F, c)
    ensures forall f, i: nat | f in F.nodes && i < SLOTS :: Slot(f, i) < |mem| && mem'[Slot(f, i)] == mem[Slot(f, i)]
  {
    forall f, i: nat | f in F.nodes && i < SLOTS
      ensures Slot(f, i) < |mem| && mem'[Slot(f, i)] == mem[Slot(f, i)]
    {
      assert FrameOk(mem, F, f);
      assert Slot(f, i) / SLOTS == f;
    }
  }

  lemma ClonedEntry(mem: seq<Word>, mem': seq<Word>, F: Forest, c: nat, i: nat)
    requires Valid(mem, F) && KernelOnly(mem, F) && Cloned(mem, mem', F, c) && i < SLOTS
    ensures EntryOk(mem', AddRoot(F, c), c, i)
  {
    assert FrameOk(mem, F, F.kroot) && EntryOk(mem, F, F.kroot, i);
    assert mem'[Slot(c, i)] == mem[Slot(F.kroot, i)];
  }

  lemma ClonedKeys(mem: seq<Word>, F: Forest, c: nat)
    requires Valid(mem, F) && c !in F.nodes
    ensures KeysUnique(AddRoot(F, c))
  {
    forall g | g in F.nodes ensures F.nodes[g].owner != Space(c) {
      if F.nodes[g].owner.Space? { OwnerIsRoot(mem, F, g); }
    }
  }

  lemma ClonedFrame(mem: seq<Word>, mem': seq<Word>, F: Forest, c: nat, f: nat)
    requires Valid(mem, F) && Cloned(mem, mem', F, c) && f in AddRoot(F, c).nodes
    ensures FrameOk(mem', AddRoot(F, c), f)
  {
    if f in F.nodes { assert FrameOk(mem, F, f); }
  }

  lemma ClonedParent(mem: seq<Word>, mem': seq<Word>, F: Forest, c: nat, f: nat)
    requires Valid(mem, F) && Cloned(mem, mem', F, c) && f in AddRoot(F, c).nodes && AddRoot(F, c).nodes[f].level < 4
    requires forall g, i: nat | g in F.nodes && i < SLOTS :: Slot(g, i) < |mem| && mem'[Slot(g, i)] == mem[Slot(g, i)]
    ensures ParentOk(mem', AddRoot(F, c), f)
  {
    ParentThere(mem, F, f);
    var p, i := F.nodes[f].parent, F.nodes[f].prefix % SLOTS;
    assert mem'[Slot(p, i)] == mem[Slot(p, i)];
  }

  lemma ClonedIsValid(mem: seq<Word>, mem': seq<Word>, F: Forest, c: nat)
    requires Valid(mem, F) && KernelOnly(mem, F) && Cloned(mem, mem', F, c)
    ensures Valid(mem', AddRoot(F, c)) && Extends(F, AddRoot(F, c))
  {
    hide FrameOk, ParentOk;
    var F' := AddRoot(F, c);
    ClonedKeepsTables(mem, mem', F, c);
    ClonedKeys(mem, F, c);
    forall f | f in F'.nodes ensures FrameOk(mem', F', f) {
      ClonedFrame(mem, mem', F, c, f);
    }
    forall f | f in F'.nodes && F'.nodes[f].level < 4 ensures ParentOk(mem', F', f) {
      ClonedParent(mem, mem', F, c, f);
    }
    forall f, i: nat | f in F'.nodes && i < SLOTS ensures EntryOk(mem', F', f, i) {
      if f == c { ClonedEntry(mem, mem', F, c, i); }
      else {
        assert EntryOk(mem, F, f, i);
        EntryKept(mem, F, mem', F', f, i);
      }
    }
  }

  lemma {:induction false} SameTablesSameWalk(mem: seq<Word>, mem': seq<Word>, F: Forest, f: nat, n: nat)
    requires Valid(mem, F) && f in F.nodes && FrameOk(mem, F, f) && Serves(F, f, n) && |mem'| == |mem|
    requires forall g, i: nat | g in F.nodes && i < SLOTS :: Slot(g, i) < |mem| && mem'[Slot(g, i)] == mem[Slot(g, i)]
    ensures WalkFrom(mem', f, F.nodes[f].level, n) == WalkFrom(mem, f, F.nodes[f].level, n)
    decreases F.nodes[f].level
  {
    var level := F.nodes[f].level;
    var s := Slot(f, IndexAt(level, n));
    Child(mem, F, f, n);
    assert mem'[s] == mem[s];
    if IsPointer(mem[s], level) {
      assert FrameOk(mem, F, FrameOf(mem[s]));
      SameTablesSameWalk(mem, mem', F, FrameOf(mem[s]), n);
    }
  }

  /** Two roots with the same top-level entry translate its pages alike. */
  lemma SameEntrySameWalk(mem: seq<Word>, mem': seq<Word>, r: nat, r': nat, n: nat)
    requires Slot(r, IndexAt(4, n)) < |mem| && Slot(r', IndexAt(4, n)) < |mem'|
    requires mem'[Slot(r', IndexAt(4, n))] == mem[Slot(r, IndexAt(4, n))]
    requires var e := mem[Slot(r, IndexAt(4, n))];
      IsPointer(e, 4) ==> WalkFrom(mem', FrameOf(e), 3, n) == WalkFrom(mem, FrameOf(e), 3, n)
    ensures WalkPage(mem', r', n) == WalkPage(mem, r, n)
  {}

  /** A cloned root translates like the reference root, and nothing else changes. */
  lemma ClonedWalks(mem: seq<Word>, mem': seq<Word>, F: Forest, c: nat)
    requires Valid(mem, F) && KernelOnly(mem, F) && Cloned(mem, mem', F, c)
    ensures Unchanged(mem, mem', F)
    ensures forall n: nat | n < PAGES :: WalkPage(mem', c, n) == WalkPage(mem, F.kroot, n)
  {
    ClonedKeepsTables(mem, mem', F, c);
    forall r, n: nat | IsRoot(F, r) && n < PAGES ensures WalkPage(mem', r, n) == WalkPage(mem, r, n) {
      assert FrameOk(mem, F, r);
      SameTablesSameWalk(mem, mem', F, r, n);
    }
    forall n: nat | n < PAGES ensures WalkPage(mem', c, n) == WalkPage(mem, F.kroot, n) {
      var k := F.kroot;
      assert FrameOk(mem, F, k);
      Child(mem, F, k, n);
      var e := mem[Slot(k, IndexAt(4, n))];
      if IsPointer(e, 4) {
        assert FrameOk(mem, F, FrameOf(e));
        SameTablesSameWalk(mem, mem', F, FrameOf(e), n);
      }
      SameEntrySameWalk(mem, mem', k, c, n);
    }
  }

  // A kernel entry copied into another root.

  ghost predicate Synced(mem: seq<Word>, mem': seq<Word>, F: Forest, r: nat, i: nat) {
    && IsRoot(F, r) && KERNEL_SLOT <= i < SLOTS
    && Slot(r, i) < |mem| && Slot(F.kroot, i) < |mem| && mem' == mem[Slot(r, i) := mem[Slot(F.kroot, i)]]
  }

  lemma SyncedIsValid(mem: seq<Word>, mem': seq<Word>, F: Forest, r: nat, i: nat)
    requires Valid(mem, F) && Synced(mem, mem', F, r, i)
    ensures Valid(mem', F)
  {
    var e := mem[Slot(F.kroot, i)];
    assert FrameOk(mem, F, r) && FrameOk(mem, F, F.kroot);
    WriteAgrees(mem, F, r, i, e);
    assert EntryOk(mem, F, F.kroot, i);
    forall f | f in F.nodes ensures FrameOk(mem', F, f) { assert FrameOk(mem, F, f); }
    forall f | f in F.nodes && F.nodes[f].level < 4 ensures ParentOk(mem', F, f) {
      assert ParentOk(mem, F, f);
      SyncedParent(mem, mem', F, r, i, f);
    }
    forall f, j: nat | f in F.nodes && j < SLOTS ensures EntryOk(mem', F, f, j) {
      assert FrameOk(mem, F, f) && EntryOk(mem, F, f, j);
      if f != r || j != i { EntryKept(mem, F, mem', F, f, j); }
    }
  }

  lemma SyncedParent(mem: seq<Word>, mem': seq<Word>, F: Forest, r: nat, i: nat, f: nat)
    requires Valid(mem, F) && Synced(mem, mem', F, r, i) && AgreeExcept(mem, mem', F, r, i)
    requires f in F.nodes && F.nodes[f].level < 4 && ParentOk(mem, F, f)
    ensures ParentOk(mem', F, f)
  {
    var p, j := F.nodes[f].parent, F.nodes[f].prefix % SLOTS;
    if p == r && j == i {
      assert FrameOk(mem, F, r) && EntryOk(mem, F, r, i);
      assert p == F.kroot;
    }
  }

  lemma SyncedWalk(mem: seq<Word>, mem': seq<Word>, F: Forest, r: nat, i: nat, q: nat, n: nat)
    requires Valid(mem, F) && Synced(mem, mem', F, r, i) && IsRoot(F, q) && n < PAGES
    ensures WalkPage(mem', q, n) == if q == r && IndexAt(4, n) == i then WalkPage(mem, F.kroot, n) else WalkPage(mem, q, n)
  {
    var e := mem[Slot(F.kroot, i)];
    assert FrameOk(mem, F, q) && FrameOk(mem, F, F.kroot) && FrameOk(mem, F, r);
    WriteAgrees(mem, F, r, i, e);
    if q == r && IndexAt(4, n) == i {
      Child(mem, F, F.kroot, n);
      if IsPointer(e, 4) {
        assert FrameOk(mem, F, FrameOf(e));
        WalkUnread(mem, mem', F, FrameOf(e), n, r, i);
      }
      SameEntrySameWalk(mem, mem', F.kroot, r, n);
    } else {
      WalkUnread(mem, mem', F, q, n, r, i);
    }
  }
}
