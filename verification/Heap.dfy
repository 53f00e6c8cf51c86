/** The kernel heap (kernel/src/mm/heap_alloc.rs) as a value: the free blocks in list order, the
    blocks handed out, and the bytes lost to alignment. */
module Heaps {
  import opened Wrappers
  import opened Bits

  const NODE_SIZE: nat := 16
  const NODE_ALIGN: nat := 8

  datatype Block = Block(addr: nat, size: nat) {
    function End(): nat {
      addr + size
    }
  }

  datatype Heap = Heap(free: seq<Block>, live: seq<Block>, padding: nat)

  /** A layout as `core::alloc::Layout` admits it, also after `align_to` and `pad_to_align`. */
  datatype Layout = Layout(size: nat, align: nat) {
    ghost predicate Valid() {
      IsAlignment(align) && RoundUp(size, AtLeastNode(align)) < 0x8000_0000_0000_0000
    }
  }

  function RoundUp(value: nat, align: nat): nat
    requires align > 0
  {
    (value + align - 1) / align * align
  }

  function AtLeastNode(align: nat): nat {
    if align < NODE_ALIGN then NODE_ALIGN else align
  }

  /** `size_align`. */
  function SizeAlign(layout: Layout): (nat, nat) {
    var align := AtLeastNode(layout.align);
    var size := RoundUp(layout.size, align);
    (if size < NODE_SIZE then NODE_SIZE else size, align)
  }

  // Alignment.

  lemma {:induction false} PowersDivide(k: nat)
    requires k >= 3
    ensures Pow2(k) % NODE_ALIGN == 0
  {
    if k > 3 {
      PowersDivide(k - 1);
      var q := Pow2(k - 1) / NODE_ALIGN;
      DivModUnique(Pow2(k), NODE_ALIGN, 2 * q, 0);
    } else {
      assert Pow2(3) == 8;
    }
  }

  lemma {:induction false} SmallPowers(k: nat)
    ensures Pow2(k) < 8 <==> k < 3
  {
    if k > 3 { SmallPowers(k - 1); } else { assert Pow2(3) == 8; }
  }

  lemma MultipleOfMultiple(v: nat, a: nat)
    requires a > 0 && a % NODE_ALIGN == 0 && v % a == 0
    ensures v % NODE_ALIGN == 0
  {
    var b, q := a / NODE_ALIGN, v / a;
    assert a == b * NODE_ALIGN && v == q * a;
    assert v == (q * b) * NODE_ALIGN;
  }

  lemma NodeAlignment(align: nat)
    requires IsAlignment(align)
    ensures IsAlignment(AtLeastNode(align)) && AtLeastNode(align) % NODE_ALIGN == 0
    ensures NODE_ALIGN <= AtLeastNode(align) <= WORD_LIMIT
  {
    var k: nat :| k < 64 && align == Pow2(k);
    SmallPowers(k);
    PowerBelow(k);
    if k >= 3 { PowersDivide(k); } else { assert Pow2(3) == 8; }
  }

  /** A request: what `size_align` makes of a layout. */
  ghost predicate Request(size: nat, align: nat) {
    && size >= NODE_SIZE && size % NODE_ALIGN == 0
    && IsAlignment(align) && align % NODE_ALIGN == 0 && NODE_ALIGN <= align <= WORD_LIMIT
  }

  /** The adjusted size is the least one that holds a node and the layout's bytes and keeps the
      following block aligned. */
  lemma SizeAlignIsRequest(layout: Layout)
    requires layout.Valid()
    ensures var (size, align) := SizeAlign(layout); Request(size, align) && layout.size <= size && layout.align <= align
    ensures var (size, align) := SizeAlign(layout); align == if layout.align < 8 then 8 else layout.align
    ensures var (size, align) := SizeAlign(layout); size >= 16 && (size == 16 || size % align == 0)
    ensures var (size, align) := SizeAlign(layout); forall s: nat :: s >= 16 && s >= layout.size && s % align == 0 ==> size <= s
  {
    NodeAlignment(layout.align);
    var align := AtLeastNode(layout.align);
    RoundUpIsLeast(layout.size, align, RoundUp(layout.size, align));
    MultipleOfMultiple(RoundUp(layout.size, align), align);
  }

  // First fit.

  function StartIn(b: Block, align: nat): nat
    requires 0 < align <= WORD_LIMIT
  {
    AlignUp(b.addr, align)
  }

  /** `alloc_from_region` succeeds. */
  predicate Fits(b: Block, size: nat, align: nat)
    requires 0 < align <= WORD_LIMIT
  {
    var end := StartIn(b, align) + size;
    && end < WORD_LIMIT && end <= b.End()
    && (b.End() - end == 0 || b.End() - end >= NODE_SIZE)
  }

  /** The index of the first block that fits, or the number of blocks. */
  function FirstFit(free: seq<Block>, size: nat, align: nat): (k: nat)
    requires 0 < align <= WORD_LIMIT
    ensures k <= |free| && (k < |free| ==> Fits(free[k], size, align))
    ensures forall j | 0 <= j < k :: !Fits(free[j], size, align)
  {
    if free == [] || Fits(free[0], size, align) then 0 else 1 + FirstFit(free[1..], size, align)
  }

  lemma FirstFitUnique(free: seq<Block>, size: nat, align: nat, k: nat)
    requires 0 < align <= WORD_LIMIT && k <= |free|
    requires k < |free| ==> Fits(free[k], size, align)
    requires forall j | 0 <= j < k :: !Fits(free[j], size, align)
    ensures FirstFit(free, size, align) == k
  {}

  // The operations.

  function Without(s: seq<Block>, k: nat): seq<Block>
    requires k < |s|
  {
    s[..k] + s[k + 1..]
  }

  function Rest(b: Block, end: nat): seq<Block> {
    if b.End() > end then [Block(end, b.End() - end)] else []
  }

  function AllocatedAddr(h: Heap, size: nat, align: nat): Option<nat>
    requires 0 < align <= WORD_LIMIT
  {
    var k := FirstFit(h.free, size, align);
    if k == |h.free| then None else Some(StartIn(h.free[k], align))
  }

  function Allocated(h: Heap, size: nat, align: nat): Heap
    requires 0 < align <= WORD_LIMIT
  {
    var k := FirstFit(h.free, size, align);
    if k == |h.free| then h
    else
      var b, start := h.free[k], StartIn(h.free[k], align);
      Heap(Rest(b, start + size) + Without(h.free, k), h.live + [Block(start, size)],
           h.padding + if start > b.addr then start - b.addr else 0)
  }

  function Freed(h: Heap, i: nat): Heap
    requires i < |h.live|
  {
    Heap([h.live[i]] + h.free, Without(h.live, i), h.padding)
  }

  // The invariant.

  ghost predicate Apart(a: Block, b: Block) {
    a.End() <= b.addr || b.End() <= a.addr
  }

  ghost predicate BlockOk(b: Block, start: nat, end: nat) {
    b.addr % NODE_ALIGN == 0 && b.size >= NODE_SIZE && start <= b.addr && b.End() <= end
  }

  ghost predicate BlocksOk(s: seq<Block>, start: nat, end: nat) {
    forall k | 0 <= k < |s| :: BlockOk(s[k], start, end)
  }

  ghost predicate ApartFrom(b: Block, s: seq<Block>) {
    forall k | 0 <= k < |s| :: Apart(b, s[k])
  }

  ghost predicate Scattered(s: seq<Block>) {
    forall j, k | 0 <= j < k < |s| :: Apart(s[j], s[k])
  }

  ghost predicate AllApart(s: seq<Block>, t: seq<Block>) {
    forall j | 0 <= j < |s| :: ApartFrom(s[j], t)
  }

  function Bytes(s: seq<Block>): nat {
    if s == [] then 0 else s[0].size + Bytes(s[1..])
  }

  /** Blocks are aligned, inside the heap and pairwise disjoint, and no byte is lost but padding. */
  ghost predicate HeapOk(h: Heap, start: nat, end: nat) {
    && BlocksOk(h.free, start, end) && BlocksOk(h.live, start, end)
    && Scattered(h.free) && Scattered(h.live) && AllApart(h.live, h.free)
    && start <= end < WORD_LIMIT && Bytes(h.free) + Bytes(h.live) + h.padding == end - start
  }

  lemma {:induction false} BytesAppend(s: seq<Block>, t: seq<Block>)
    ensures Bytes(s + t) == Bytes(s) + Bytes(t)
  {
    if s == [] { assert s + t == t; } else {
      assert (s + t)[1..] == s[1..] + t;
      BytesAppend(s[1..], t);
    }
  }

  lemma {:induction false} BytesWithout(s: seq<Block>, k: nat)
    requires k < |s|
    ensures Bytes(s) == Bytes(Without(s, k)) + s[k].size
  {
    if k == 0 {
      assert Without(s, 0) == s[1..];
    } else {
      BytesWithout(s[1..], k - 1);
      assert Without(s, k) == [s[0]] + Without(s[1..], k - 1);
    }
  }

  lemma WithoutAt(s: seq<Block>, k: nat, j: nat)
    requires k < |s| && j < |s| - 1
    ensures |Without(s, k)| == |s| - 1 && Without(s, k)[j] == s[if j < k then j else j + 1]
  {}

  lemma RemovedOk(s: seq<Block>, k: nat, start: nat, end: nat)
    requires k < |s| && BlocksOk(s, start, end) && Scattered(s)
    ensures BlocksOk(Without(s, k), start, end) && Scattered(Without(s, k)) && ApartFrom(s[k], Without(s, k))
  {
    forall j: nat | j < |s| - 1 ensures Apart(s[k], Without(s, k)[j]) {
      WithoutAt(s, k, j);
    }
  }

  lemma AddedOk(b: Block, s: seq<Block>, start: nat, end: nat)
    requires BlockOk(b, start, end) && BlocksOk(s, start, end) && Scattered(s) && ApartFrom(b, s)
    ensures BlocksOk([b] + s, start, end) && Scattered([b] + s)
  {}

  lemma AppendedOk(b: Block, s: seq<Block>, start: nat, end: nat)
    requires BlockOk(b, start, end) && BlocksOk(s, start, end) && Scattered(s) && ApartFrom(b, s)
    ensures BlocksOk(s + [b], start, end) && Scattered(s + [b])
  {}

  /** Rounding up does not overflow in the block that is found. */
  ghost predicate NoWrap(h: Heap, size: nat, align: nat)
    requires 0 < align <= WORD_LIMIT
  {
    var k := FirstFit(h.free, size, align);
    k < |h.free| ==> h.free[k].addr + align <= WORD_LIMIT
  }

  /** A request fits in a block: where it comes to lie. */
  lemma FitPlace(b: Block, size: nat, align: nat, start: nat, end: nat)
    requires BlockOk(b, start, end) && Request(size, align) && b.addr + align <= WORD_LIMIT
    ensures var s := StartIn(b, align);
      s % align == 0 && s % NODE_ALIGN == 0 && b.addr <= s && (align == NODE_ALIGN ==> s == b.addr)
    ensures b.addr % align == 0 ==> StartIn(b, align) == b.addr
  {
    AlignUpIsLeast(b.addr, align);
    MultipleOfMultiple(StartIn(b, align), align);
  }

  lemma AllocParts(h: Heap, size: nat, align: nat, start: nat, end: nat)
    requires HeapOk(h, start, end) && Request(size, align) && NoWrap(h, size, align)
    requires FirstFit(h.free, size, align) < |h.free|
    ensures var k := FirstFit(h.free, size, align);
      var b, rest := h.free[k], Without(h.free, k);
      var got := Block(StartIn(b, align), size);
      && BlockOk(got, start, end) && b.addr <= got.addr && got.End() <= b.End()
      && ApartFrom(got, rest) && ApartFrom(got, h.live) && ApartFrom(b, rest) && ApartFrom(b, h.live)
      && BlocksOk(rest, start, end) && Scattered(rest)
      && (b.End() == got.End() || b.End() - got.End() >= NODE_SIZE)
  {
    var k := FirstFit(h.free, size, align);
    assert BlockOk(h.free[k], start, end);
    FitPlace(h.free[k], size, align, start, end);
    RemovedOk(h.free, k, start, end);
  }

  lemma RestOk(b: Block, stop: nat, s: seq<Block>, start: nat, end: nat)
    requires BlockOk(b, start, end) && BlocksOk(s, start, end) && Scattered(s) && ApartFrom(b, s)
    requires stop % NODE_ALIGN == 0 && b.addr <= stop <= b.End() && (b.End() == stop || b.End() - stop >= NODE_SIZE)
    ensures BlocksOk(Rest(b, stop) + s, start, end) && Scattered(Rest(b, stop) + s)
    ensures Bytes(Rest(b, stop) + s) == b.End() - stop + Bytes(s)
    ensures forall c :: ApartFrom(c, s) && Apart(c, b) ==> ApartFrom(c, Rest(b, stop) + s)
    ensures forall c :: ApartFrom(c, s) && c.End() <= stop ==> ApartFrom(c, Rest(b, stop) + s)
  {
    BytesAppend(Rest(b, stop), s);
    if b.End() > stop {
      AddedOk(Block(stop, b.End() - stop), s, start, end);
    } else {
      assert Rest(b, stop) + s == s;
    }
  }

  /** Allocation keeps the heap in order. */
  lemma AllocKeeps(h: Heap, size: nat, align: nat, start: nat, end: nat)
    requires HeapOk(h, start, end) && Request(size, align) && NoWrap(h, size, align)
    ensures HeapOk(Allocated(h, size, align), start, end)
  {
    hide Fits, StartIn, Without, Rest, ApartFrom, Scattered;
    var k := FirstFit(h.free, size, align);
    if k < |h.free| {
      var b, rest := h.free[k], Without(h.free, k);
      var got := Block(StartIn(b, align), size);
      AllocParts(h, size, align, start, end);
      SumAligned(got.addr, size);
      RestOk(b, got.End(), rest, start, end);
      AppendedOk(got, h.live, start, end);
      BytesWithout(h.free, k);
      BytesAppend(h.live, [got]);
      LiveApart(h.live, h.free, k, got);
    }
  }

  lemma SumAligned(a: nat, b: nat)
    requires a % NODE_ALIGN == 0 && b % NODE_ALIGN == 0
    ensures (a + b) % NODE_ALIGN == 0
  {
    DivModUnique(a + b, NODE_ALIGN, a / NODE_ALIGN + b / NODE_ALIGN, 0);
  }

  lemma WithoutApart(c: Block, s: seq<Block>, k: nat)
    requires k < |s| && ApartFrom(c, s)
    ensures ApartFrom(c, Without(s, k))
  {
    forall j: nat | j < |s| - 1 ensures Apart(c, Without(s, k)[j]) {
      WithoutAt(s, k, j);
    }
  }

  lemma LiveApart(live: seq<Block>, free: seq<Block>, k: nat, got: Block)
    requires k < |free| && AllApart(live, free) && ApartFrom(got, Without(free, k))
    requires free[k].addr <= got.addr && got.End() <= free[k].End()
    ensures AllApart(live + [got], Rest(free[k], got.End()) + Without(free, k))
  {
    var after := Rest(free[k], got.End()) + Without(free, k);
    forall j: nat | j < |live| ensures ApartFrom(live[j], after) {
      assert ApartFrom(live[j], free) && Apart(live[j], free[k]);
      WithoutApart(live[j], free, k);
    }
  }

  /** Freeing keeps the heap in order. */
  lemma FreeKeeps(h: Heap, i: nat, start: nat, end: nat)
    requires HeapOk(h, start, end) && i < |h.live|
    ensures HeapOk(Freed(h, i), start, end)
  {
    var b, rest := h.live[i], Without(h.live, i);
    RemovedOk(h.live, i, start, end);
    assert BlockOk(b, start, end) && ApartFrom(b, h.free);
    AddedOk(b, h.free, start, end);
    BytesWithout(h.live, i);
    assert ([b] + h.free)[1..] == h.free;
    forall j: nat | j < |rest| ensures ApartFrom(rest[j], [b] + h.free) {
      WithoutAt(h.live, i, j);
      assert ApartFrom(h.live[if j < i then j else j + 1], h.free);
      assert Apart(b, rest[j]);
    }
  }

  /** What a caller gets: an aligned block inside the heap that meets no block in use. */
  lemma AllocReturns(h: Heap, size: nat, align: nat, start: nat, end: nat)
    requires HeapOk(h, start, end) && Request(size, align) && NoWrap(h, size, align)
    ensures AllocatedAddr(h, size, align).None? <==> forall k | 0 <= k < |h.free| :: !Fits(h.free[k], size, align)
    ensures AllocatedAddr(h, size, align).Some? ==>
      var b := Block(AllocatedAddr(h, size, align).value, size);
      && BlockOk(b, start, end) && b.addr % align == 0 && ApartFrom(b, h.live)
      && Allocated(h, size, align).live == h.live + [b]
  {
    var k := FirstFit(h.free, size, align);
    if k < |h.free| {
      AllocParts(h, size, align, start, end);
      FitPlace(h.free[k], size, align, start, end);
    }
  }

  /** Requests aligned to a node at most lose no padding. */
  lemma NoPadding(h: Heap, size: nat, start: nat, end: nat)
    requires HeapOk(h, start, end) && Request(size, NODE_ALIGN)
    ensures NoWrap(h, size, NODE_ALIGN) && Allocated(h, size, NODE_ALIGN).padding == h.padding
  {
    var k := FirstFit(h.free, size, NODE_ALIGN);
    if k < |h.free| {
      assert BlockOk(h.free[k], start, end);
      FitPlace(h.free[k], size, NODE_ALIGN, start, end);
    }
  }

  /** Last in, first out: a freed block is what the next request of the same layout gets, and the
      free list is then as it was before. */
  lemma FreeThenAlloc(h: Heap, i: nat, align: nat, start: nat, end: nat)
    requires HeapOk(h, start, end) && i < |h.live| && Request(h.live[i].size, align)
    requires h.live[i].addr % align == 0
    ensures var h' := Freed(h, i);
      && AllocatedAddr(h', h.live[i].size, align) == Some(h.live[i].addr)
      && Allocated(h', h.live[i].size, align) == h.(live := Without(h.live, i) + [h.live[i]])
  {
    var b := h.live[i];
    assert BlockOk(b, start, end);
    AlignedHasRoom(b.addr, align);
    FitPlace(b, b.size, align, start, end);
    FirstFitUnique([b] + h.free, b.size, align, 0);
    assert Without([b] + h.free, 0) == h.free;
  }

  // Runs.

  datatype Op = Alloc(layout: Layout) | Free(index: nat)

  ghost predicate NoWrapFor(h: Heap, layout: Layout) {
    var (size, align) := SizeAlign(layout);
    0 < align <= WORD_LIMIT && NoWrap(h, size, align)
  }

  ghost predicate Step(h: Heap, op: Op, h': Heap) {
    match op
    case Alloc(layout) =>
      && layout.Valid() && NoWrapFor(h, layout)
      && var (size, align) := SizeAlign(layout); h' == Allocated(h, size, align)
    case Free(i) => i < |h.live| && h' == Freed(h, i)
  }

  ghost predicate Run(states: seq<Heap>, ops: seq<Op>, start: nat, end: nat)
    requires start <= end
  {
    && |states| == |ops| + 1 && states[0] == Heap([Block(start, end - start)], [], 0)
    && forall k | 0 <= k < |ops| :: Step(states[k], ops[k], states[k + 1])
  }

  lemma StepKeeps(h: Heap, op: Op, h': Heap, start: nat, end: nat)
    requires HeapOk(h, start, end) && Step(h, op, h')
    ensures HeapOk(h', start, end)
    ensures (op.Alloc? ==> op.layout.align <= NODE_ALIGN) ==> h'.padding == h.padding
  {
    if op.Alloc? {
      var (size, align) := SizeAlign(op.layout);
      SizeAlignIsRequest(op.layout);
      AllocKeeps(h, size, align, start, end);
      if op.layout.align <= NODE_ALIGN { NoPadding(h, size, start, end); }
    } else {
      FreeKeeps(h, op.index, start, end);
    }
  }

  lemma StartIsSafe(start: nat, end: nat)
    requires start % NODE_ALIGN == 0 && start + NODE_SIZE <= end < WORD_LIMIT
    ensures HeapOk(Heap([Block(start, end - start)], [], 0), start, end)
  {
    assert [Block(start, end - start)][1..] == [];
  }

  /** Heap safety and conservation over every run of allocations and matching frees; no byte is
      lost as long as no alignment above a node's is asked for. */
  lemma {:induction false} RunIsSafe(states: seq<Heap>, ops: seq<Op>, start: nat, end: nat, k: nat)
    requires start % NODE_ALIGN == 0 && start + NODE_SIZE <= end < WORD_LIMIT
    requires Run(states, ops, start, end) && k <= |ops|
    ensures HeapOk(states[k], start, end)
    ensures (forall j | 0 <= j < k && ops[j].Alloc? :: ops[j].layout.align <= NODE_ALIGN) ==> states[k].padding == 0
  {
    hide HeapOk, Step;
    if k == 0 {
      StartIsSafe(start, end);
    } else {
      RunIsSafe(states, ops, start, end, k - 1);
      StepKeeps(states[k - 1], ops[k - 1], states[k], start, end);
    }
  }

  // Overflow.

  /** With an alignment so large that the sum in `align_up` overflows, the fit test accepts every
      block that does not end within a node's size after the request, and the address is 0. */
  lemma OverflowFits(b: Block, size: nat, align: nat)
    requires IsAlignment(align) && b.End() < WORD_LIMIT && b.addr + align > WORD_LIMIT
    ensures 0 < align <= WORD_LIMIT && StartIn(b, align) == 0
    ensures Fits(b, size, align) <==> size <= b.End() && (b.End() == size || b.End() - size >= NODE_SIZE)
  {
    AlignUpOverflows(b.addr, align);
  }

  /** What allocation promises holds if and only if rounding up does not overflow in the block that
      is found: then the result is an aligned block inside the heap, and the heap stays in order. */
  lemma AllocIsSafeIff(h: Heap, size: nat, align: nat, start: nat, end: nat)
    requires HeapOk(h, start, end) && Request(size, align) && start > 0
    requires FirstFit(h.free, size, align) < |h.free|
    ensures var b := Block(AllocatedAddr(h, size, align).value, size);
      NoWrap(h, size, align) <==> BlockOk(b, start, end) && b.addr % align == 0 && ApartFrom(b, h.live)
    ensures NoWrap(h, size, align) <==> HeapOk(Allocated(h, size, align), start, end)
  {
    var b := h.free[FirstFit(h.free, size, align)];
    if NoWrap(h, size, align) {
      AllocReturns(h, size, align, start, end);
      AllocKeeps(h, size, align, start, end);
    } else {
      assert BlockOk(b, start, end);
      OverflowFits(b, size, align);
      var live := Allocated(h, size, align).live;
      assert live[|live| - 1] == Block(0, size) && !BlockOk(live[|live| - 1], start, end);
    }
  }

  /** For instance: in the kernel's heap a request aligned to 2 GiB yields address 0. */
  lemma OverflowExample()
    ensures Layout(8, 0x8000_0000).Valid() && SizeAlign(Layout(8, 0x8000_0000)) == (0x8000_0000, 0x8000_0000)
    ensures var h := Heap([Block(0xffff_ffff_8010_0000, 0x10_0000)], [], 0);
      AllocatedAddr(h, 0x8000_0000, 0x8000_0000) == Some(0)
  {
    hide AlignUp, Pow2;
    var b := Block(0xffff_ffff_8010_0000, 0x10_0000);
    TwoGiB();
    OverflowFits(b, 0x8000_0000, 0x8000_0000);
    FirstFitUnique([b], 0x8000_0000, 0x8000_0000, 0);
  }

  lemma TwoGiB()
    ensures IsAlignment(0x8000_0000)
  {
    Pow2Add(12, 12);
    Pow2Add(24, 7);
    assert Pow2(12) == 0x1000 && Pow2(7) == 0x80;
    assert 31 < 64 && Pow2(31) == 0x8000_0000;
  }
}
