/** The bitmap frame allocator (kernel/src/mm/frame_alloc.rs), refining a set of free frames. */
module FrameAlloc {
  import opened Wrappers
  import opened Entries
  import opened BootMap

  /** `1 << k` on a byte. */
  function Bit(k: nat): (b: bv8)
    requires k < 8
    ensures b == 1 << k
  {
    match k
    case 0 => 0x01
    case 1 => 0x02
    case 2 => 0x04
    case 3 => 0x08
    case 4 => 0x10
    case 5 => 0x20
    case 6 => 0x40
    case _ => 0x80
  }

  predicate TestBit(b: bv8, k: nat)
    requires k < 8
  {
    b & Bit(k) > 0
  }

  function ClearBit(b: bv8, k: nat): bv8
    requires k < 8
  {
    b & !Bit(k)
  }

  function SetBit(b: bv8, k: nat): bv8
    requires k < 8
  {
    b | Bit(k)
  }

  lemma BitCleared(b: bv8, k: nat, j: nat)
    requires k < 8 && j < 8
    ensures TestBit(ClearBit(b, k), j) <==> if j == k then false else TestBit(b, j)
  {}

  lemma BitSet(b: bv8, k: nat, j: nat)
    requires k < 8 && j < 8
    ensures TestBit(SetBit(b, k), j) <==> if j == k then true else TestBit(b, j)
  {}

  lemma BitSplit(i: nat, j: nat)
    ensures i / 8 == j / 8 && i % 8 == j % 8 ==> i == j
  {}

  class Bitmap {
    var storage: seq<bv8>

    constructor (length: nat)
      ensures |storage| == length
      ensures forall i: nat | i / 8 < length :: !Index(i)
    {
      storage := seq(length, _ => 0);
    }

    predicate Index(index: nat)
      requires index / 8 < |storage|
      reads this
    {
      TestBit(storage[index / 8], index % 8)
    }

    method SetIndex(index: nat, value: bool)
      requires index / 8 < |storage|
      modifies this
      ensures |storage| == old(|storage|)
      ensures forall j: nat | j / 8 < |storage| :: Index(j) == if j == index then value else old(Index(j))
    {
      var byteIndex, bitIndex := index / 8, index % 8;
      storage := storage[byteIndex := ClearBit(storage[byteIndex], bitIndex)];
      if value {
        storage := storage[byteIndex := SetBit(storage[byteIndex], bitIndex)];
      }
      forall j: nat | j / 8 < |storage|
        ensures Index(j) == if j == index then value else old(Index(j))
      {
        BitSplit(j, index);
        if j / 8 == byteIndex {
          BitCleared(old(storage[byteIndex]), bitIndex, j % 8);
          BitSet(ClearBit(old(storage[byteIndex]), bitIndex), bitIndex, j % 8);
        }
      }
    }
  }

  predicate Within(f: nat, first: nat, count: nat) {
    first <= f < first + count
  }

  function Interval(first: nat, count: nat): (s: set<nat>)
    ensures forall f: nat :: f in s <==> Within(f, first, count)
  {
    set f: nat | first <= f < first + count && Within(f, first, count)
  }

  function FromPaddr(paddr: nat): nat {
    paddr / PAGE_SIZE
  }

  ghost function FrameOfTable(table: nat): (c: nat)
    ensures c == table / PAGE_SIZE
  {
    FromPaddr(table)
  }

  class BitmapRegion {
    const start: nat
    const numFrames: nat
    const bitmap: Bitmap
    /** The frames of the region whose bit is clear. */
    ghost var free: set<nat>

    function First(): nat {
      start / PAGE_SIZE
    }

    predicate Owns(f: nat) {
      First() <= f < First() + numFrames
    }

    function EndAddr(): int {
      start + numFrames * PAGE_SIZE - 1
    }

    ghost predicate Valid()
      reads this, bitmap
    {
      && start % PAGE_SIZE == 0 && numFrames > 0 && |bitmap.storage| == numFrames / 8 + 1
      && (forall f | f in free :: Owns(f))
      && (forall f: nat | Owns(f) :: f in free <==> !bitmap.Index(f - First()))
    }

    constructor (start: nat, numFrames: nat)
      requires start % PAGE_SIZE == 0 && numFrames > 0
      ensures Valid() && fresh(bitmap)
      ensures this.start == start && this.numFrames == numFrames
      ensures free == Interval(First(), numFrames)
    {
      this.start := start;
      this.numFrames := numFrames;
      bitmap := new Bitmap(numFrames / 8 + 1);
      free := Interval(start / PAGE_SIZE, numFrames);
    }

    method LockFrames(addr: nat, count: nat)
      requires Valid() && addr % PAGE_SIZE == 0
      requires start <= addr && addr + count * PAGE_SIZE <= EndAddr() + 1
      modifies this`free, bitmap
      ensures Valid() && free == old(free) - Interval(FromPaddr(addr), count)
    {
      var first := (addr - start) / PAGE_SIZE;
      for i := first to first + count
        invariant Valid() && free == old(free) - Interval(FromPaddr(addr), i - first)
      {
        bitmap.SetIndex(i, true);
        free := free - {First() + i};
      }
    }

    /** The lowest free frame of the region, if any. */
    method AllocFrame() returns (frame: Option<nat>)
      requires Valid()
      modifies this`free, bitmap
      ensures Valid()
      ensures frame.None? <==> old(free) == {}
      ensures frame.None? ==> free == old(free)
      ensures frame.Some? ==> frame.value in old(free) && free == old(free) - {frame.value}
      ensures frame.Some? ==> forall f | f in old(free) :: frame.value <= f
    {
      for i := 0 to numFrames
        invariant Valid() && free == old(free)
        invariant forall f | f in free :: First() + i <= f
      {
        if !bitmap.Index(i) {
          ghost var f := First() + i;
          assert f in free;
          bitmap.SetIndex(i, true);
          free := free - {f};
          return Some(FromPaddr(i * PAGE_SIZE + start));
        }
      }
      return None;
    }

    method FreeFrame(frame: nat)
      requires Valid() && Owns(frame)
      modifies this`free, bitmap
      ensures Valid() && free == old(free) + {frame}
    {
      var paddr := frame * PAGE_SIZE;
      bitmap.SetIndex((paddr - start) / PAGE_SIZE, false);
      free := free + {frame};
    }
  }

  class BitmapFrameAllocator {
    var regions: seq<BitmapRegion>
    /** The free frames of all regions. */
    ghost var free: set<nat>

    ghost var Repr: set<object>

    ghost predicate RegionsApart()
      reads this
    {
      forall j, k | 0 <= j < k < |regions| ::
        regions[j] != regions[k] && regions[j].bitmap != regions[k].bitmap && FramesApart(regions[j], regions[k])
    }

    ghost predicate Valid()
      reads this, Repr
    {
      && this !in Repr && RegionsApart()
      && (forall k | 0 <= k < |regions| :: regions[k] in Repr && regions[k].bitmap in Repr && regions[k].Valid())
      && (forall k | 0 <= k < |regions| :: regions[k].free <= free)
      && (forall f | f in free :: exists k :: 0 <= k < |regions| && f in regions[k].free)
    }

    ghost predicate Owns(f: nat)
      reads this
    {
      exists k :: 0 <= k < |regions| && regions[k].Owns(f)
    }

    constructor ()
      ensures Valid() && free == {} && regions == [] && Repr == {}
    {
      regions, free, Repr := [], {}, {};
    }

    /** Changing one region keeps the allocator consistent. */
    twostate lemma RegionChanged(k: nat)
      requires old(Valid()) && regions == old(regions) && Repr == old(Repr) && k < |regions|
      requires forall j | 0 <= j < |regions| && j != k :: unchanged(regions[j]) && unchanged(regions[j].bitmap)
      requires regions[k].Valid()
      requires free == old(free) - old(regions[k].free) + regions[k].free
      ensures Valid()
    {
      forall j | 0 <= j < |regions| && j != k ensures regions[j].Valid() && regions[j].free !! old(regions[k].free) {
        assert old(regions[j].Valid() && regions[k].Valid());
        assert j < k || k < j;
      }
      forall f | f in free ensures exists j :: 0 <= j < |regions| && f in regions[j].free {
        if f !in regions[k].free {
          var j :| 0 <= j < |regions| && f in old(regions[j].free);
          assert f in regions[j].free;
        }
      }
    }

    /** `bitmap_regions.push` of a new region. */
    method Push(region: BitmapRegion)
      requires Valid() && region.Valid() && region !in Repr && region.bitmap !in Repr
      requires forall k | 0 <= k < |regions| :: FramesApart(regions[k], region)
      modifies this
      ensures Valid() && regions == old(regions) + [region]
      ensures free == old(free) + region.free && Repr == old(Repr) + {region, region.bitmap}
    {
      ghost var n, before := |regions|, regions;
      regions := regions + [region];
      free := free + region.free;
      Repr := Repr + {region, region.bitmap};
      assert regions[n] == region && forall k | 0 <= k < n :: regions[k] == before[k];
    }

    /** The regions stand for these entries, one each and in their order. */
    ghost predicate RegionsAre(entries: seq<MapEntry>)
      reads this
    {
      |regions| == |entries| && forall k | 0 <= k < |entries| :: IsRegionOf(regions[k], entries[k])
    }

    ghost predicate AllFree()
      reads this, Repr
      requires Valid()
    {
      forall k | 0 <= k < |regions| :: regions[k].free == Interval(regions[k].First(), regions[k].numFrames)
    }

    lemma EntryIsApart(entry: MapEntry)
      requires Valid() && AllFree() && entry.typ == Available && entry.length >= PAGE_SIZE
      requires forall f | f in free :: !EntryFrame(entry, f)
      ensures forall k | 0 <= k < |regions| ::
        IntervalsApart(regions[k].First(), regions[k].numFrames, FromPaddr(entry.addr), entry.length / PAGE_SIZE)
    {
      forall k | 0 <= k < |regions|
        ensures IntervalsApart(regions[k].First(), regions[k].numFrames, FromPaddr(entry.addr), entry.length / PAGE_SIZE)
      {
        assert regions[k].Valid();
        var a, b := regions[k].First(), FromPaddr(entry.addr);
        assert a in regions[k].free && !EntryFrame(entry, a);
        assert EntryFrame(entry, b) && b !in regions[k].free;
      }
    }

    /** One region per available entry, in order, and all their frames free. */
    ghost predicate Holds(es: seq<MapEntry>)
      reads this, Repr
      requires Valid()
    {
      AllFree() && RegionsAre(Availables(es)) && forall f: nat :: f in free <==> AvailableFrame(es, f)
    }

    /** One turn of the loop of `init`. */
    method AddEntry(entry: MapEntry, ghost before: seq<MapEntry>)
      requires Valid() && Holds(before) && (forall f: nat | EntryFrame(entry, f) :: !AvailableFrame(before, f))
      requires entry.typ == Available ==> entry.addr % PAGE_SIZE == 0 && entry.length >= PAGE_SIZE
      modifies this
      ensures Valid() && Holds(before + [entry]) && fresh(Repr - old(Repr))
    {
      hide AvailableFrame, Availables, EntryFrame, Interval, IntervalsApart;
      AvailablesAppend(before, entry);
      AvailableAppend(before, entry);
      EntryFrames(entry);
      if entry.typ == Available {
        var region := new BitmapRegion(entry.addr, entry.length / PAGE_SIZE);
        EntryIsApart(entry);
        Push(region);
      }
    }

    /** One region per available entry of the memory map; all its frames become free. */
    method Init(memoryMap: seq<MapEntry>)
      requires Valid() && regions == [] && free == {} && Repr == {}
      requires Separated(memoryMap) && UsableEntries(memoryMap)
      modifies this
      ensures Valid() && Holds(memoryMap) && fresh(Repr)
    {
      for i := 0 to |memoryMap|
        invariant Valid() && Holds(memoryMap[..i]) && fresh(Repr)
      {
        assert memoryMap[..i + 1] == memoryMap[..i] + [memoryMap[i]];
        EntryApart(memoryMap, i);
        AddEntry(memoryMap[i], memoryMap[..i]);
      }
      assert memoryMap[..|memoryMap|] == memoryMap;
    }

    lemma FreeInRegion(k: nat, f: nat)
      requires Valid() && k < |regions| && f in free && regions[k].Owns(f)
      ensures f in regions[k].free
    {
      var j :| 0 <= j < |regions| && f in regions[j].free;
      assert regions[j].Valid();
      assert j == k || j < k || k < j;
    }

    lemma OwnerOf(f: nat) returns (k: nat)
      requires Valid() && f in free
      ensures k < |regions| && regions[k].Owns(f)
    {
      k :| 0 <= k < |regions| && f in regions[k].free;
      assert regions[k].Valid();
    }

    /** No region before `k` owns a frame of `s`. */
    ghost predicate OwnedFrom(k: nat, s: set<nat>)
      requires k <= |regions|
      reads this
    {
      forall j, g | 0 <= j < k && g in s :: !regions[j].Owns(g)
    }

    lemma NoOwnerNoFrame()
      requires Valid() && OwnedFrom(|regions|, free)
      ensures free == {}
    {
      forall f ensures f !in free {
        if f in free { var k := OwnerOf(f); }
      }
    }

    /** `f` comes first among the frames of `s` in the order of the regions. */
    ghost predicate ComesFirst(f: nat, s: set<nat>)
      reads this
    {
      exists k :: 0 <= k < |regions| && regions[k].Owns(f) && NoneBefore(k, f, s)
    }

    ghost predicate NoneBefore(k: nat, f: nat, s: set<nat>)
      requires k < |regions|
      reads this
    {
      OwnedFrom(k, s) && forall g | g in s && regions[k].Owns(g) :: f <= g
    }

    method AllocFrom(k: nat) returns (frame: Option<nat>)
      requires Valid() && k < |regions|
      modifies this`free, regions[k], regions[k].bitmap
      ensures Valid()
      ensures frame.None? <==> old(regions[k].free) == {}
      ensures frame.None? ==> free == old(free) && regions[k].free == {}
      ensures frame.Some? ==> frame.value in old(regions[k].free) && free == old(free) - {frame.value}
      ensures old(OwnedFrom(k, free)) && frame.Some? ==> ComesFirst(frame.value, old(free))
      ensures old(OwnedFrom(k, free)) && frame.None? ==> OwnedFrom(k + 1, free)
    {
      assert regions[k].Valid();
      forall g | g in free && regions[k].Owns(g) ensures g in regions[k].free {
        FreeInRegion(k, g);
      }
      frame := regions[k].AllocFrame();
      if frame.Some? {
        free := free - {frame.value};
      }
      RegionChanged(k);
    }

    /** The first free frame in the order of the regions; `None` exactly when none is left. */
    method AllocFrame() returns (frame: Option<nat>)
      requires Valid()
      modifies this`free, Repr
      ensures Valid() && regions == old(regions) && Repr == old(Repr)
      ensures frame.None? <==> old(free) == {}
      ensures frame.None? ==> free == old(free)
      ensures frame.Some? ==> frame.value in old(free) && free == old(free) - {frame.value}
      ensures frame.Some? ==> ComesFirst(frame.value, old(free))
    {
      for k := 0 to |regions|
        invariant Valid() && regions == old(regions) && free == old(free) && OwnedFrom(k, free)
      {
        frame := AllocFrom(k);
        if frame.Some? {
          return;
        }
      }
      NoOwnerNoFrame();
      return None;
    }

    /** A frame outside every region is ignored. */
    method FreeFrame(frame: nat)
      requires Valid()
      modifies this`free, Repr
      ensures Valid() && regions == old(regions) && Repr == old(Repr)
      ensures free == if Owns(frame) then old(free) + {frame} else old(free)
    {
      var paddr := frame * PAGE_SIZE;
      var k := 0;
      while k < |regions|
        modifies {}
        invariant k <= |regions|
        invariant forall j | 0 <= j < k :: !regions[j].Owns(frame)
      {
        if paddr >= regions[k].start && paddr <= regions[k].EndAddr() {
          break;
        }
        k := k + 1;
      }
      if k == |regions| { return; }
      regions[k].FreeFrame(frame);
      free := free + {frame};
      RegionChanged(k);
    }

    /** Locks the range only when one region contains all of it. */
    method LockRegion(addr: nat, length: nat) returns (ok: bool)
      requires Valid() && length > 0
      requires forall k | 0 <= k < |regions| ::
        regions[k].start <= addr && addr + length <= regions[k].start + regions[k].numFrames * PAGE_SIZE ==>
          addr % PAGE_SIZE == 0
      modifies this`free, Repr
      ensures Valid() && regions == old(regions) && Repr == old(Repr)
      ensures ok <==> exists k :: 0 <= k < |regions| && regions[k].start <= addr &&
                                  addr + length <= regions[k].start + regions[k].numFrames * PAGE_SIZE
      ensures free == if ok then old(free) - Interval(FromPaddr(addr), length / PAGE_SIZE) else old(free)
    {
      var k := 0;
      while k < |regions|
        modifies {}
        invariant k <= |regions|
        invariant forall j | 0 <= j < k :: !(regions[j].start <= addr && addr + length - 1 <= regions[j].EndAddr())
      {
        if addr >= regions[k].start && addr + length - 1 <= regions[k].EndAddr() {
          break;
        }
        k := k + 1;
      }
      if k == |regions| { return false; }
      var count := length / PAGE_SIZE;
      regions[k].LockFrames(addr, count);
      free := free - Interval(FromPaddr(addr), count);
      RegionChanged(k);
      return true;
    }
  }

  ghost predicate IntervalsApart(a: nat, n: nat, b: nat, m: nat) {
    a + n <= b || b + m <= a
  }

  ghost predicate FramesApart(a: BitmapRegion, b: BitmapRegion) {
    IntervalsApart(a.First(), a.numFrames, b.First(), b.numFrames)
  }

  ghost predicate IsRegionOf(region: BitmapRegion, e: MapEntry) {
    region.start == e.addr && region.numFrames == e.length / PAGE_SIZE
  }

  /** `BitmapRegion::new` insists on a page-aligned start and at least one frame. */
  ghost predicate UsableEntries(es: seq<MapEntry>) {
    forall i | 0 <= i < |es| && es[i].typ == Available :: es[i].addr % PAGE_SIZE == 0 && es[i].length >= PAGE_SIZE
  }

  ghost predicate EntryFrame(e: MapEntry, f: nat) {
    e.typ == Available && FromPaddr(e.addr) <= f < FromPaddr(e.addr) + e.length / PAGE_SIZE
  }

  lemma EntryFrames(e: MapEntry)
    ensures forall f: nat :: EntryFrame(e, f) <==> e.typ == Available && f in Interval(FromPaddr(e.addr), e.length / PAGE_SIZE)
  {}

  ghost predicate AvailableFrame(es: seq<MapEntry>, f: nat) {
    exists i :: 0 <= i < |es| && EntryFrame(es[i], f)
  }

  /** The frames are those whose bytes all lie in one available entry. */
  lemma AvailableFrameIff(es: seq<MapEntry>, f: nat)
    requires UsableEntries(es)
    ensures AvailableFrame(es, f) <==>
      exists i :: 0 <= i < |es| && es[i].typ == Available &&
                  es[i].addr <= f * PAGE_SIZE && f * PAGE_SIZE + PAGE_SIZE <= es[i].addr + es[i].length
  {
    forall i | 0 <= i < |es| && es[i].typ == Available
      ensures EntryFrame(es[i], f) <==> es[i].addr <= f * PAGE_SIZE && f * PAGE_SIZE + PAGE_SIZE <= es[i].addr + es[i].length
    {
      WholeFrames(es[i].addr, es[i].length, f);
    }
  }

  lemma WholeFrames(addr: nat, length: nat, f: nat)
    requires addr % PAGE_SIZE == 0
    ensures Within(f, FromPaddr(addr), length / PAGE_SIZE) <==>
            addr <= f * PAGE_SIZE && f * PAGE_SIZE + PAGE_SIZE <= addr + length
  {}

  /** The available entries, in order. */
  function Availables(es: seq<MapEntry>): seq<MapEntry> {
    if es == [] then []
    else Availables(es[..|es| - 1]) + (if es[|es| - 1].typ == Available then [es[|es| - 1]] else [])
  }

  lemma AvailablesAppend(es: seq<MapEntry>, e: MapEntry)
    ensures Availables(es + [e]) == Availables(es) + (if e.typ == Available then [e] else [])
  {
    assert (es + [e])[..|es|] == es;
  }

  lemma {:induction false} AvailablesAre(es: seq<MapEntry>, e: MapEntry)
    ensures e in Availables(es) <==> e in es && e.typ == Available
  {
    if es != [] {
      var front, last := es[..|es| - 1], es[|es| - 1];
      assert es == front + [last];
      AvailablesAre(front, e);
    }
  }

  lemma AvailableAppend(es: seq<MapEntry>, e: MapEntry)
    ensures forall f: nat :: AvailableFrame(es + [e], f) <==> AvailableFrame(es, f) || EntryFrame(e, f)
  {
    forall f: nat ensures AvailableFrame(es + [e], f) <==> AvailableFrame(es, f) || EntryFrame(e, f) {
      if EntryFrame(e, f) { assert (es + [e])[|es|] == e; }
      if AvailableFrame(es, f) {
        var i :| 0 <= i < |es| && EntryFrame(es[i], f);
        assert (es + [e])[i] == es[i];
      }
    }
  }

  /** Available entries that do not touch share no frame. */
  lemma EntryApart(es: seq<MapEntry>, i: nat)
    requires Separated(es) && UsableEntries(es) && i < |es|
    ensures forall f: nat | EntryFrame(es[i], f) :: !AvailableFrame(es[..i], f)
  {
    forall f: nat, j | EntryFrame(es[i], f) && 0 <= j < i ensures !EntryFrame(es[j], f) {
      assert !Matches(es[j], es[i]);
    }
  }

  ghost predicate RunAvailable(es: seq<MapEntry>, first: nat, count: nat) {
    forall f: nat | Within(f, first, count) :: AvailableFrame(es, f)
  }

  ghost predicate EntryHolds(e: MapEntry, first: nat, count: nat) {
    e.typ == Available && FromPaddr(e.addr) <= first && first + count <= FromPaddr(e.addr) + e.length / PAGE_SIZE
  }

  lemma OnlyMatch(es: seq<MapEntry>, i: nat, j: nat)
    requires Separated(es) && i < |es| && j < |es|
    ensures Matches(es[i], es[j]) && Matches(es[j], es[i]) ==> i == j
  {}

  /** Merged entries do not touch, so a run of available frames lies in one of them. */
  lemma {:induction false} RunInOneEntry(es: seq<MapEntry>, first: nat, count: nat) returns (i: nat)
    requires Separated(es) && UsableEntries(es) && count > 0 && RunAvailable(es, first, count)
    ensures i < |es| && EntryHolds(es[i], first, count)
    decreases count
  {
    var last := first + count - 1;
    assert Within(last, first, count);
    var j: nat :| j < |es| && EntryFrame(es[j], last);
    i := j;
    if count > 1 {
      forall f: nat | Within(f, first, count - 1) ensures AvailableFrame(es, f) {
        assert Within(f, first, count);
      }
      i := RunInOneEntry(es, first, count - 1);
      OnlyMatch(es, i, j);
    }
  }
}
