/** The kernel heap's code (kernel/src/mm/heap_alloc.rs): a free list whose nodes, a size and the
    address of the next node, lie in the free memory itself. */
module HeapAllocators {
  import opened Wrappers
  import opened Bits
  import opened Entries
  import opened Heaps

  // The list in memory.

  /** The word of the heap's memory that holds the byte at `addr`. */
  function WordOf(start: nat, addr: nat): nat {
    if addr < start then 0 else (addr - start) / 8
  }

  /** What the link to the block with index `k` holds: its address, or 0 for `None`. */
  function LinkTo(s: seq<Block>, k: nat): nat {
    if k < |s| then s[k].addr else 0
  }

  ghost predicate NodeAt(memory: seq<Word>, start: nat, s: seq<Block>, k: nat)
    requires k < |s|
  {
    var w := WordOf(start, s[k].addr);
    && start <= s[k].addr && w + 1 < |memory|
    && memory[w] == s[k].size && memory[w + 1] == LinkTo(s, k + 1)
  }

  ghost predicate Linked(memory: seq<Word>, start: nat, head: nat, s: seq<Block>) {
    head == LinkTo(s, 0) && forall k: nat | k < |s| :: NodeAt(memory, start, s, k)
  }

  ghost predicate Holds(start: nat, b: Block, w: nat) {
    b.addr <= start + 8 * w < b.End()
  }

  ghost predicate OutOf(start: nat, s: seq<Block>, w: nat) {
    forall j | 0 <= j < |s| :: !Holds(start, s[j], w)
  }

  /** Only words inside the blocks of `s` differ. */
  ghost predicate WritesWithin(memory: seq<Word>, memory': seq<Word>, start: nat, s: seq<Block>) {
    |memory'| == |memory| && forall w: nat | w < |memory| && OutOf(start, s, w) :: memory'[w] == memory[w]
  }

  /** Nodes of disjoint blocks share no word. */
  lemma NodesApart(start: nat, end: nat, a: Block, b: Block)
    requires start % NODE_ALIGN == 0 && BlockOk(a, start, end) && BlockOk(b, start, end) && Apart(a, b)
    ensures WordOf(start, a.addr) + 2 <= WordOf(start, b.addr) || WordOf(start, b.addr) + 2 <= WordOf(start, a.addr)
  {}

  lemma NodeHolds(start: nat, end: nat, b: Block)
    requires start % NODE_ALIGN == 0 && BlockOk(b, start, end)
    ensures Holds(start, b, WordOf(start, b.addr)) && Holds(start, b, WordOf(start, b.addr) + 1)
    ensures WordOf(start, b.addr) + 1 < (end - start) / 8
  {}

  /** The least block is the two words of a node. */
  lemma LeastBlock(start: nat, b: Block, w: nat)
    requires start % 8 == 0 && b.addr % 8 == 0 && start <= b.addr && b.size == NODE_SIZE
    ensures Holds(start, b, w) <==> w == WordOf(start, b.addr) || w == WordOf(start, b.addr) + 1
  {}

  /** The word of a byte does not begin before an aligned block that contains the byte. */
  lemma WordStart(start: nat, block: nat, addr: nat)
    requires start % 8 == 0 && block % 8 == 0 && start <= block <= addr
    ensures block <= start + 8 * WordOf(start, addr) <= addr
  {
    var w := (addr - start) / 8;
    assert start + 8 * w + (addr - start) % 8 == addr;
    assert (start + 8 * w) % 8 == 0;
  }

  /** No byte of a block in use lies in a word that the free list may write. */
  lemma LiveUntouched(h: Heap, start: nat, end: nat, i: nat, addr: nat)
    requires start % NODE_ALIGN == 0 && HeapOk(h, start, end) && i < |h.live| && h.live[i].addr <= addr < h.live[i].End()
    ensures OutOf(start, h.free, WordOf(start, addr))
  {
    assert BlockOk(h.live[i], start, end) && ApartFrom(h.live[i], h.free);
    WordStart(start, h.live[i].addr, addr);
    hide WordOf;
    forall j: nat | j < |h.free| ensures !Holds(start, h.free[j], WordOf(start, addr)) {
      assert Apart(h.live[i], h.free[j]) && BlockOk(h.free[j], start, end);
    }
  }

  /** Following the links `n` times from a node. */
  function Follow(memory: seq<Word>, start: nat, p: nat, n: nat): nat
    decreases n
  {
    if n == 0 || p == 0 || WordOf(start, p) + 1 >= |memory| then p
    else Follow(memory, start, memory[WordOf(start, p) + 1], n - 1)
  }

  lemma {:induction false} FollowFrom(memory: seq<Word>, start: nat, head: nat, s: seq<Block>, k: nat, n: nat)
    requires Linked(memory, start, head, s) && start > 0 && k + n <= |s|
    ensures Follow(memory, start, LinkTo(s, k), n) == LinkTo(s, k + n)
    decreases n
  {
    if n > 0 {
      assert NodeAt(memory, start, s, k);
      FollowFrom(memory, start, head, s, k + 1, n - 1);
    }
  }

  /** The list is acyclic: its links visit every free block once, in order, and then end. */
  lemma ListIsAcyclic(memory: seq<Word>, start: nat, end: nat, head: nat, h: Heap)
    requires Linked(memory, start, head, h.free) && start > 0 && HeapOk(h, start, end)
    ensures Follow(memory, start, head, |h.free|) == 0
    ensures forall k: nat | k < |h.free| :: Follow(memory, start, head, k) == h.free[k].addr
    ensures forall j: nat, k: nat | j < k < |h.free| :: Follow(memory, start, head, j) != Follow(memory, start, head, k)
  {
    FollowFrom(memory, start, head, h.free, 0, |h.free|);
    forall k: nat | k < |h.free| ensures Follow(memory, start, head, k) == h.free[k].addr {
      FollowFrom(memory, start, head, h.free, 0, k);
    }
    forall j: nat, k: nat | j < k < |h.free| ensures h.free[j].addr != h.free[k].addr {
      assert Apart(h.free[j], h.free[k]) && BlockOk(h.free[j], start, end) && BlockOk(h.free[k], start, end);
    }
  }

  ghost predicate ListOk(memory: seq<Word>, start: nat, end: nat, head: nat, s: seq<Block>) {
    && 0 < start && start % NODE_ALIGN == 0 && start <= end < WORD_LIMIT && |memory| == (end - start) / 8
    && BlocksOk(s, start, end) && Scattered(s) && Linked(memory, start, head, s)
  }

  /** Writing a node into a block that is apart from the list puts it in front. */
  lemma NodePushed(memory: seq<Word>, start: nat, end: nat, head: nat, s: seq<Block>, b: Block)
    requires ListOk(memory, start, end, head, s) && BlockOk(b, start, end) && ApartFrom(b, s)
    ensures WordOf(start, b.addr) + 1 < |memory| && b.size < WORD_LIMIT && head < WORD_LIMIT
    ensures var w := WordOf(start, b.addr);
      var after := memory[w := b.size][w + 1 := head];
      ListOk(after, start, end, b.addr, [b] + s) && WritesWithin(memory, after, start, [b])
  {
    NodeHolds(start, end, b);
    if s != [] { assert BlockOk(s[0], start, end); }
    var w := WordOf(start, b.addr);
    var after := memory[w := b.size][w + 1 := head];
    AddedOk(b, s, start, end);
    forall k: nat | k < |s| + 1 ensures NodeAt(after, start, [b] + s, k) {
      if k > 0 {
        assert NodeAt(memory, start, s, k - 1) && Apart(b, s[k - 1]);
        NodesApart(start, end, b, s[k - 1]);
        assert LinkTo([b] + s, k + 1) == LinkTo(s, k);
      } else {
        assert LinkTo([b] + s, 1) == LinkTo(s, 0);
      }
    }
    forall w': nat | w' < |memory| && OutOf(start, [b], w') ensures after[w'] == memory[w'] {
      assert !Holds(start, [b][0], w');
    }
  }

  /** The links of a list after the one to block `k` was led past it. */
  ghost predicate LedPast(memory: seq<Word>, memory': seq<Word>, start: nat, head: nat, head': nat, s: seq<Block>, k: nat)
    requires k < |s|
  {
    var w := WordOf(start, s[k].addr) + 1;
    if w >= |memory| then false
    else if k == 0 then head' == LinkTo(s, 1) && memory' == memory[w := 0]
    else
      var v := WordOf(start, s[k - 1].addr) + 1;
      head' == head && v < |memory| && LinkTo(s, k + 1) < WORD_LIMIT && memory' == memory[w := 0][v := LinkTo(s, k + 1)]
  }

  lemma UnlinkedNode(memory: seq<Word>, memory': seq<Word>, start: nat, end: nat, head: nat, head': nat, s: seq<Block>,
                     k: nat, j: nat)
    requires ListOk(memory, start, end, head, s) && k < |s| && LedPast(memory, memory', start, head, head', s, k)
    requires j < |s| - 1
    ensures NodeAt(memory', start, Without(s, k), j)
  {
    hide Without, Scattered, WordOf, BlockOk, Apart;
    var i := if j < k then j else j + 1;
    AnyTwoApart(s, i, k);
    if k > 0 && i != k - 1 { AnyTwoApart(s, i, k - 1); }
    WithoutAt(s, k, j);
    if j < |s| - 2 { WithoutAt(s, k, j + 1); }
    assert NodeAt(memory, start, s, i) && NodeAt(memory, start, s, k);
    assert BlockOk(s[i], start, end) && BlockOk(s[k], start, end);
    NodesApart(start, end, s[i], s[k]);
    if k > 0 && i != k - 1 {
      assert BlockOk(s[k - 1], start, end);
      NodesApart(start, end, s[i], s[k - 1]);
    }
  }

  lemma AnyTwoApart(s: seq<Block>, j: nat, k: nat)
    requires Scattered(s) && j < |s| && k < |s| && j != k
    ensures Apart(s[j], s[k])
  {}

  lemma Unlinked(memory: seq<Word>, memory': seq<Word>, start: nat, end: nat, head: nat, head': nat, s: seq<Block>, k: nat)
    requires ListOk(memory, start, end, head, s) && k < |s| && LedPast(memory, memory', start, head, head', s, k)
    ensures ListOk(memory', start, end, head', Without(s, k)) && WritesWithin(memory, memory', start, s)
    ensures WordOf(start, s[k].addr) < |memory'| && memory'[WordOf(start, s[k].addr)] == s[k].size
  {
    RemovedOk(s, k, start, end);
    forall j: nat | j < |s| - 1 ensures NodeAt(memory', start, Without(s, k), j) {
      UnlinkedNode(memory, memory', start, end, head, head', s, k, j);
    }
    assert NodeAt(memory, start, s, k) && BlockOk(s[k], start, end);
    NodeHolds(start, end, s[k]);
    if k > 0 {
      assert NodeAt(memory, start, s, 0) && BlockOk(s[k - 1], start, end) && Apart(s[k - 1], s[k]);
      NodeHolds(start, end, s[k - 1]);
      NodesApart(start, end, s[k - 1], s[k]);
      WithoutAt(s, k, 0);
    } else if |s| > 1 {
      WithoutAt(s, k, 0);
    }
  }

  // The code.

  /** `alloc_from_region` on a node that was read from memory; `RegionAnswer` says what it promises. */
  function AllocFromRegion(region: Block, size: nat, align: nat): (start: Option<nat>)
    requires 0 < align <= WORD_LIMIT
    ensures start == if Fits(region, size, align) then Some(StartIn(region, align)) else None
  {
    var allocStart := AlignUp(region.addr, align);
    if allocStart + size >= WORD_LIMIT then None
    else
      var allocEnd := allocStart + size;
      if allocEnd > region.End() then None
      else if region.End() - allocEnd > 0 && region.End() - allocEnd < NODE_SIZE then None
      else Some(allocStart)
  }

  /** An address that serves a request in a region: it is the lowest aligned one, the block ends
      inside the region, and what is left behind it is nothing or can hold a node. */
  ghost predicate Serves(region: Block, size: nat, align: nat, addr: nat)
    requires align > 0
  {
    && addr % align == 0 && region.addr <= addr
    && (forall m: nat | m % align == 0 && region.addr <= m :: addr <= m)
    && addr + size <= region.End() && (addr + size == region.End() || addr + size + NODE_SIZE <= region.End())
  }

  /** The answer is right: an address that serves the request, and `None` only when there is none. */
  ghost predicate RightAnswer(region: Block, size: nat, align: nat, answer: Option<nat>)
    requires align > 0
  {
    match answer
    case Some(addr) => Serves(region, size, align, addr)
    case None => forall addr: nat :: !Serves(region, size, align, addr)
  }

  /** Nothing below 2^64 is aligned when rounding up would overflow. */
  lemma NoneServes(region: Block, size: nat, align: nat, addr: nat)
    requires Request(size, align) && region.End() < WORD_LIMIT && region.addr + align > WORD_LIMIT && region.addr > 0
    ensures !Serves(region, size, align, addr)
  {
    if addr < WORD_LIMIT { AlignedHasRoom(addr, align); }
  }

  /** `alloc_from_region` answers right if and only if rounding up does not overflow in the region, or
      it answers `None` all the same. */
  lemma RegionAnswer(region: Block, size: nat, align: nat)
    requires Request(size, align) && region.End() < WORD_LIMIT && region.addr > 0
    ensures RightAnswer(region, size, align, AllocFromRegion(region, size, align)) <==>
            region.addr + align <= WORD_LIMIT || AllocFromRegion(region, size, align).None?
  {
    if region.addr + align <= WORD_LIMIT {
      AlignUpIsLeast(region.addr, align);
      var s := AlignUp(region.addr, align);
      forall addr: nat ensures Serves(region, size, align, addr) ==> addr == s {}
    } else {
      forall addr: nat ensures !Serves(region, size, align, addr) { NoneServes(region, size, align, addr); }
    }
  }

  class Allocator {
    const start: nat
    const end: nat
    var memory: seq<Word>
    /** `head.next`: the address of the first node, 0 for `None`. */
    var head: nat

    ghost var free: seq<Block>
    ghost var live: seq<Block>
    ghost var padding: nat

    ghost function Contents(): Heap
      reads this
    {
      Heap(free, live, padding)
    }

    ghost predicate Listed()
      reads this
    {
      ListOk(memory, start, end, head, free)
    }

    ghost predicate Valid()
      reads this
    {
      Listed() && HeapOk(Contents(), start, end)
    }

    /** `new` and `init`: the whole heap is one free block, whatever the memory holds. */
    constructor (start: nat, size: nat, memory: seq<Word>)
      requires 0 < start && start % NODE_ALIGN == 0 && size >= NODE_SIZE && start + size < WORD_LIMIT
      requires |memory| == size / 8
      ensures Valid() && this.start == start && end == start + size
      ensures Contents() == Heap([Block(start, size)], [], 0)
    {
      this.start, end, this.memory, head := start, start + size, memory, 0;
      free, live, padding := [], [], 0;
      new;
      AddFreeRegion(start, size);
    }

    /** `add_free_region`; its two assertions hold. */
    method AddFreeRegion(addr: nat, size: nat)
      requires Listed() && BlockOk(Block(addr, size), start, end) && ApartFrom(Block(addr, size), free)
      modifies this`memory, this`head, this`free
      ensures Listed() && free == [Block(addr, size)] + old(free)
      ensures WritesWithin(old(memory), memory, start, [Block(addr, size)])
    {
      NodeIsAligned(addr);
      assert AlignUp(addr, NODE_ALIGN) == addr;
      assert size >= NODE_SIZE;
      NodePushed(memory, start, end, head, free, Block(addr, size));
      var w := WordOf(start, addr);
      memory := memory[w := size][w + 1 := head];
      head := addr;
      free := [Block(addr, size)] + free;
    }

    /** The link of a node, or of the list's head for 0. */
    method Next(current: nat) returns (next: nat)
      requires current != 0 ==> WordOf(start, current) + 1 < |memory|
      ensures next == if current == 0 then head else memory[WordOf(start, current) + 1]
    {
      next := if current == 0 then head else memory[WordOf(start, current) + 1];
    }

    method SetNext(current: nat, next: nat)
      requires current != 0 ==> WordOf(start, current) + 1 < |memory| && next < WORD_LIMIT
      modifies this`memory, this`head
      ensures current == 0 ==> head == next && memory == old(memory)
      ensures current != 0 ==> head == old(head) && memory == old(memory)[WordOf(start, current) + 1 := next]
    {
      if current == 0 {
        head := next;
      } else {
        memory := memory[WordOf(start, current) + 1 := next];
      }
    }

    /** Takes the node after `current` out of the list. */
    method TakeNext(current: nat, region: nat, ghost k: nat)
      requires Listed() && k < |free| && region == free[k].addr && current == if k == 0 then 0 else free[k - 1].addr
      modifies this`memory, this`head, this`free
      ensures Listed() && free == Without(old(free), k) && WritesWithin(old(memory), memory, start, old(free))
      ensures WordOf(start, region) < |memory| && memory[WordOf(start, region)] == old(free[k]).size
    {
      assert NodeAt(memory, start, free, k);
      if k > 0 { assert NodeAt(memory, start, free, k - 1); }
      if k + 1 < |free| { assert BlockOk(free[k + 1], start, end); }
      var next := Next(region);
      SetNext(region, 0);
      SetNext(current, 0);
      SetNext(current, next);
      TakenPast(old(memory), memory, start, end, old(head), head, free, k);
      Unlinked(old(memory), memory, start, end, old(head), head, free, k);
      free := Without(free, k);
    }

    /** `find_region`: the first node that fits leaves the list; without one nothing changes. */
    method FindRegion(size: nat, align: nat) returns (found: Option<(nat, nat)>)
      requires Listed() && 0 < align <= WORD_LIMIT
      modifies this`memory, this`head, this`free
      ensures Listed()
      ensures found.None? ==> FirstFit(old(free), size, align) == |old(free)| && Contents() == old(Contents())
      ensures found.None? ==> memory == old(memory) && head == old(head)
      ensures found.Some? ==> FirstFit(old(free), size, align) < |old(free)| && FoundNode(old(free), size, align, found.value)
      ensures found.Some? ==> free == Without(old(free), FirstFit(old(free), size, align))
      ensures found.Some? ==> WritesWithin(old(memory), memory, start, old(free)) && WordOf(start, found.value.0) < |memory|
      ensures found.Some? ==> memory[WordOf(start, found.value.0)] == old(free)[FirstFit(old(free), size, align)].size
    {
      var current := 0;
      ghost var k := 0;
      var region := Next(current);
      while region != 0
        invariant k <= |free| && region == LinkTo(free, k) && current == if k == 0 then 0 else free[k - 1].addr
        invariant memory == old(memory) && head == old(head) && free == old(free)
        invariant forall j | 0 <= j < k :: !Fits(free[j], size, align)
        decreases |free| - k
      {
        assert NodeAt(memory, start, free, k);
        var allocStart := AllocFromRegion(Block(region, memory[WordOf(start, region)]), size, align);
        if allocStart.Some? {
          FirstFitUnique(free, size, align, k);
          TakeNext(current, region, k);
          return Some((region, allocStart.value));
        }
        current := region;
        region := Next(current);
        k := k + 1;
      }
      LinkIsSome(free, start, end, k);
      FirstFitUnique(free, size, align, k);
      return None;
    }

    /** The part of `alloc_memory` that puts the rest of the found block back. */
    method Carve(ghost h: Heap, size: nat, align: nat, region: nat, allocStart: nat)
      requires Listed() && HeapOk(h, start, end) && Request(size, align) && NoWrap(h, size, align)
      requires FirstFit(h.free, size, align) < |h.free| && FoundNode(h.free, size, align, (region, allocStart))
      requires Contents() == h.(free := Without(h.free, FirstFit(h.free, size, align)))
      requires WordOf(start, region) < |memory|
      requires memory[WordOf(start, region)] == h.free[FirstFit(h.free, size, align)].size
      modifies this
      ensures Valid() && Contents() == Allocated(h, size, align)
      ensures memory == old(memory) || WritesWithin(old(memory), memory, start, Rest(FitBlock(h, size, align), allocStart + size))
    {
      hide HeapOk, ListOk, Scattered, BlocksOk, BlockOk, ApartFrom, Fits, StartIn, Without, FirstFit, Request, WritesWithin;
      RequestAligns(size, align);
      ghost var b := FitBlock(h, size, align);
      AllocKeeps(h, size, align, start, end);
      FitBounds(h, size, align, start, end);
      var allocEnd := allocStart + size;
      var excessSize := region + memory[WordOf(start, region)] - allocEnd;
      if excessSize > 0 {
        RestIsBlock(h, size, align, start, end);
        AddFreeRegion(allocEnd, excessSize);
      } else {
        assert Rest(b, allocEnd) + free == free;
      }
      live, padding := live + [Block(allocStart, size)], padding + (allocStart - region);
    }

    /** `alloc_memory`: the result and the new heap are those of the model, and every block in use
        keeps its bytes. */
    method AllocMemory(layout: Layout) returns (addr: Option<nat>)
      requires Valid() && layout.Valid() && NoWrapFor(Contents(), layout)
      modifies this
      ensures 0 < SizeAlign(layout).1 <= WORD_LIMIT
      ensures Valid() && Contents() == Allocated(old(Contents()), SizeAlign(layout).0, SizeAlign(layout).1)
      ensures addr == AllocatedAddr(old(Contents()), SizeAlign(layout).0, SizeAlign(layout).1)
      ensures LiveKept(old(Contents()), old(memory), memory, start)
    {
      hide HeapOk, ListOk, Fits, StartIn, Without, FirstFit, Request, WritesWithin;
      var (size, align) := SizeAlign(layout);
      SizeAlignIsRequest(layout);
      RequestAligns(size, align);
      ghost var h, words := Contents(), memory;
      ListAligned(memory, start, end, head, free);
      var found := FindRegion(size, align);
      if found.None? { return None; }
      FitBounds(h, size, align, start, end);
      ghost var between := memory;
      Carve(h, size, align, found.value.0, found.value.1);
      AllocWrites(h, size, align, start, end, words, between, memory);
      return Some(found.value.1);
    }

    /** `free_memory` of a block in use: its node overwrites only bytes of that block. */
    method FreeMemory(addr: nat, size: nat, ghost i: nat)
      requires Valid() && i < |live| && live[i] == Block(addr, size)
      modifies this
      ensures Valid() && Contents() == Freed(old(Contents()), i)
      ensures WritesWithin(old(memory), memory, start, [Block(addr, size)])
      ensures LiveKept(Contents(), old(memory), memory, start)
    {
      ghost var h, words := Freed(Contents(), i), memory;
      ListAligned(memory, start, end, head, free);
      FreeKeeps(Contents(), i, start, end);
      assert BlockOk(live[i], start, end) && ApartFrom(live[i], free);
      AddFreeRegion(addr, size);
      live := Without(live, i);
      FreeWrites(h, start, end, words, memory);
    }

    /** `alloc`; `None` stands for the panic. */
    method Alloc(layout: Layout) returns (addr: Option<nat>)
      requires Valid() && layout.Valid() && NoWrapFor(Contents(), layout)
      modifies this
      ensures Valid()
      ensures addr.None? ==> Contents() == old(Contents())
      ensures addr.Some? ==> addr.value % layout.align == 0 && start <= addr.value && addr.value + layout.size <= end
      ensures addr.Some? ==> forall j | 0 <= j < |old(live)| :: Apart(Block(addr.value, layout.size), old(live)[j])
      ensures addr.Some? ==> live == old(live) + [Block(addr.value, SizeAlign(layout).0)]
    {
      ghost var h := Contents();
      addr := AllocMemory(layout);
      SizeAlignIsRequest(layout);
      AllocReturns(h, SizeAlign(layout).0, SizeAlign(layout).1, start, end);
      if addr.Some? { AlignedForCaller(addr.value, layout); }
    }

    /** `dealloc` with the layout of the allocation. */
    method Dealloc(addr: nat, layout: Layout, ghost i: nat)
      requires Valid() && layout.Valid() && i < |live| && live[i] == Block(addr, SizeAlign(layout).0)
      modifies this
      ensures Valid() && Contents() == Freed(old(Contents()), i)
    {
      var (size, _) := SizeAlign(layout);
      FreeMemory(addr, size, i);
    }

    /** The owner of a block writes a word of it: the free list does not notice. */
    method Store(addr: nat, value: Word, ghost i: nat)
      requires Valid() && addr % 8 == 0 && i < |live| && live[i].addr <= addr && addr + 8 <= live[i].End()
      modifies this`memory
      ensures Valid() && memory == old(memory)[WordOf(start, addr) := value]
    {
      assert BlockOk(live[i], start, end);
      StoreKeeps(memory, start, end, head, Contents(), i, addr, value);
      memory := memory[WordOf(start, addr) := value];
    }
  }

  ghost predicate UnchangedAt(memory: seq<Word>, memory': seq<Word>, start: nat, addr: nat) {
    var w := WordOf(start, addr);
    |memory'| == |memory| && (w < |memory| ==> memory'[w] == memory[w])
  }

  lemma LinkIsSome(s: seq<Block>, start: nat, end: nat, k: nat)
    requires BlocksOk(s, start, end) && start > 0
    ensures k < |s| ==> LinkTo(s, k) != 0
  {
    if k < |s| { assert BlockOk(s[k], start, end); }
  }

  /** Every block in use has the bytes it had. */
  ghost predicate LiveKept(h: Heap, memory: seq<Word>, memory': seq<Word>, start: nat) {
    forall i, a: nat | 0 <= i < |h.live| && h.live[i].addr <= a < h.live[i].End() :: UnchangedAt(memory, memory', start, a)
  }

  ghost function FitBlock(h: Heap, size: nat, align: nat): Block
    requires 0 < align <= WORD_LIMIT && FirstFit(h.free, size, align) < |h.free|
  {
    h.free[FirstFit(h.free, size, align)]
  }

  lemma RequestAligns(size: nat, align: nat)
    requires Request(size, align)
    ensures NODE_ALIGN <= align <= WORD_LIMIT
  {}

  lemma ListAligned(memory: seq<Word>, start: nat, end: nat, head: nat, s: seq<Block>)
    requires ListOk(memory, start, end, head, s)
    ensures start % NODE_ALIGN == 0
  {}

  lemma FitBounds(h: Heap, size: nat, align: nat, start: nat, end: nat)
    requires HeapOk(h, start, end) && Request(size, align) && NoWrap(h, size, align)
    requires FirstFit(h.free, size, align) < |h.free|
    ensures var b := FitBlock(h, size, align); b.addr <= StartIn(b, align) && StartIn(b, align) + size <= b.End()
  {
    AllocParts(h, size, align, start, end);
  }

  lemma FitIsBlock(h: Heap, size: nat, align: nat, start: nat, end: nat)
    requires HeapOk(h, start, end) && 0 < align <= WORD_LIMIT && FirstFit(h.free, size, align) < |h.free|
    ensures BlockOk(FitBlock(h, size, align), start, end)
  {}

  lemma RestIsBlock(h: Heap, size: nat, align: nat, start: nat, end: nat)
    requires HeapOk(h, start, end) && Request(size, align) && NoWrap(h, size, align)
    requires FirstFit(h.free, size, align) < |h.free|
    requires var b := FitBlock(h, size, align); StartIn(b, align) + size < b.End()
    ensures var b := FitBlock(h, size, align);
      var rest := Block(StartIn(b, align) + size, b.End() - (StartIn(b, align) + size));
      && Rest(b, StartIn(b, align) + size) == [rest]
      && BlockOk(rest, start, end) && ApartFrom(rest, Without(h.free, FirstFit(h.free, size, align)))
  {
    hide HeapOk, NoWrap, FirstFit, StartIn, Without, Scattered, BlocksOk;
    FitIsBlock(h, size, align, start, end);
    AllocParts(h, size, align, start, end);
    SumAligned(StartIn(FitBlock(h, size, align), align), size);
  }

  /** All that an allocation writes lies in blocks that were free. */
  lemma AllocWrites(h: Heap, size: nat, align: nat, start: nat, end: nat, words: seq<Word>, between: seq<Word>, memory: seq<Word>)
    requires HeapOk(h, start, end) && start % NODE_ALIGN == 0 && 0 < align <= WORD_LIMIT
    requires FirstFit(h.free, size, align) < |h.free| && WritesWithin(words, between, start, h.free)
    requires var b := FitBlock(h, size, align);
      && b.addr <= StartIn(b, align)
      && (memory == between || WritesWithin(between, memory, start, Rest(b, StartIn(b, align) + size)))
    ensures LiveKept(h, words, memory, start)
  {
    var b := FitBlock(h, size, align);
    forall i, a: nat | 0 <= i < |h.live| && h.live[i].addr <= a < h.live[i].End()
      ensures UnchangedAt(words, memory, start, a)
    {
      LiveUntouched(h, start, end, i, a);
      assert !Holds(start, b, WordOf(start, a));
    }
  }

  lemma FreeWrites(h: Heap, start: nat, end: nat, words: seq<Word>, memory: seq<Word>)
    requires HeapOk(h, start, end) && start % NODE_ALIGN == 0 && h.free != [] && WritesWithin(words, memory, start, [h.free[0]])
    ensures LiveKept(h, words, memory, start)
  {
    forall i, a: nat | 0 <= i < |h.live| && h.live[i].addr <= a < h.live[i].End()
      ensures UnchangedAt(words, memory, start, a)
    {
      LiveUntouched(h, start, end, i, a);
      assert !Holds(start, h.free[0], WordOf(start, a));
    }
  }

  lemma AlignedForCaller(addr: nat, layout: Layout)
    requires layout.Valid() && layout.align > 0 && SizeAlign(layout).1 > 0 && addr % SizeAlign(layout).1 == 0
    ensures addr % layout.align == 0
  {
    hide RoundUp, IsAlignment;
    if layout.align < NODE_ALIGN {
      SmallAlignment(layout.align);
      MultipleOf8(addr);
    }
  }

  lemma MultipleOf8(addr: nat)
    ensures addr % 8 == 0 ==> addr % 1 == 0 && addr % 2 == 0 && addr % 4 == 0
  {
    if addr % 8 == 0 {
      var q := addr / 8;
      DivModUnique(addr, 2, 4 * q, 0);
      DivModUnique(addr, 4, 2 * q, 0);
    }
  }

  lemma SmallAlignment(align: nat)
    requires IsAlignment(align) && align < NODE_ALIGN
    ensures align in {1, 2, 4}
  {
    var k: nat :| k < 64 && align == Pow2(k);
    SmallPowers(k);
    assert Pow2(0) == 1 && Pow2(1) == 2 && Pow2(2) == 4;
  }

  lemma StoreKeeps(memory: seq<Word>, start: nat, end: nat, head: nat, h: Heap, i: nat, addr: nat, value: Word)
    requires ListOk(memory, start, end, head, h.free) && HeapOk(h, start, end) && i < |h.live|
    requires addr % 8 == 0 && h.live[i].addr <= addr && addr + 8 <= h.live[i].End()
    ensures WordOf(start, addr) < |memory| && ListOk(memory[WordOf(start, addr) := value], start, end, head, h.free)
  {
    assert BlockOk(h.live[i], start, end);
    LiveUntouched(h, start, end, i, addr);
    assert WordOf(start, addr) < |memory|;
    var after := memory[WordOf(start, addr) := value];
    forall k: nat | k < |h.free| ensures NodeAt(after, start, h.free, k) {
      assert NodeAt(memory, start, h.free, k) && BlockOk(h.free[k], start, end);
      NodeHolds(start, end, h.free[k]);
    }
  }

  ghost predicate FoundNode(s: seq<Block>, size: nat, align: nat, found: (nat, nat))
    requires 0 < align <= WORD_LIMIT && FirstFit(s, size, align) < |s|
  {
    var b := s[FirstFit(s, size, align)];
    found == (b.addr, StartIn(b, align))
  }

  lemma NodeIsAligned(addr: nat)
    requires addr % NODE_ALIGN == 0 && addr + NODE_ALIGN <= WORD_LIMIT
    ensures AlignUp(addr, NODE_ALIGN) == addr
  {
    assert Pow2(3) == NODE_ALIGN;
    AlignUpIsLeast(addr, NODE_ALIGN);
  }

  lemma TakenPast(memory: seq<Word>, memory': seq<Word>, start: nat, end: nat, head: nat, head': nat, s: seq<Block>, k: nat)
    requires ListOk(memory, start, end, head, s) && k < |s| && NodeAt(memory, start, s, k) && LinkTo(s, k + 1) < WORD_LIMIT
    requires var w := WordOf(start, s[k].addr) + 1;
      if k == 0 then head' == LinkTo(s, 1) && memory' == memory[w := 0]
      else
        && WordOf(start, s[k - 1].addr) + 1 < |memory| && head' == head
        && var v := WordOf(start, s[k - 1].addr) + 1;
           memory' == memory[w := 0][v := 0][v := LinkTo(s, k + 1)]
    ensures LedPast(memory, memory', start, head, head', s, k)
  {}
}
