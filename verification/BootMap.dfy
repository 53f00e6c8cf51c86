/** The boot memory map (shared/boot/src/lib.rs): entries that touch an entry of their own
    type are merged into it, restarting after every merge. */
module BootMap {

  const MAX_MEMORY_MAP_ENTRIES: nat := 128

  datatype MapType = Available | Reserved | Acpi | Unknown

  datatype MapEntry = MapEntry(addr: nat, length: nat, typ: MapType) {
    function End(): nat {
      addr + length
    }

    predicate Covers(p: nat) {
      addr <= p < End()
    }

    predicate Overlaps(other: MapEntry) {
      RangesOverlap(addr, End(), other.addr, other.End())
    }
  }

  predicate RangesOverlap(x1: nat, x2: nat, y1: nat, y2: nat) {
    var (lowX, highX) := if x1 > x2 then (x2, x1) else (x1, x2);
    var (lowY, highY) := if y1 > y2 then (y2, y1) else (y1, y2);
    lowX <= highY && lowY <= highX
  }

  predicate Matches(ent: MapEntry, entry: MapEntry) {
    entry.typ == ent.typ && ent.Overlaps(entry)
  }

  function Join(entry: MapEntry, ent: MapEntry): MapEntry {
    MapEntry(if entry.addr < ent.addr then entry.addr else ent.addr, entry.length + ent.length, entry.typ)
  }

  function FirstMatch(es: seq<MapEntry>, entry: MapEntry): (i: nat)
    ensures i <= |es| && (i < |es| ==> Matches(es[i], entry))
    ensures forall k | 0 <= k < i :: !Matches(es[k], entry)
  {
    if es == [] || Matches(es[0], entry) then 0 else 1 + FirstMatch(es[1..], entry)
  }

  function Without(es: seq<MapEntry>, i: nat): seq<MapEntry>
    requires i < |es|
  {
    es[..i] + es[i + 1..]
  }

  /** What the merge loop computes. */
  function Merge(es: seq<MapEntry>, entry: MapEntry): seq<MapEntry>
    decreases |es|
  {
    var i := FirstMatch(es, entry);
    if i == |es| then es + [entry] else Merge(Without(es, i), Join(entry, es[i]))
  }

  // What the source promises of it.

  /** Between two entries of one type there is a gap. */
  ghost predicate Separated(es: seq<MapEntry>) {
    forall i, j | 0 <= i < j < |es| && es[i].typ == es[j].typ ::
      es[i].addr + es[i].length < es[j].addr || es[j].addr + es[j].length < es[i].addr
  }

  /** The merge test finds exactly the entries that leave no gap. */
  lemma SeparatedIff(es: seq<MapEntry>)
    ensures Separated(es) <==> forall i, j | 0 <= i < j < |es| :: !Matches(es[i], es[j])
  {}

  function TotalLength(es: seq<MapEntry>, typ: MapType): nat {
    if es == [] then 0
    else TotalLength(es[..|es| - 1], typ) + (if es[|es| - 1].typ == typ then es[|es| - 1].length else 0)
  }

  ghost predicate Covered(es: seq<MapEntry>, typ: MapType, p: nat) {
    exists i :: 0 <= i < |es| && es[i].typ == typ && es[i].Covers(p)
  }

  ghost predicate Disjoint(a: MapEntry, b: MapEntry) {
    a.typ == b.typ ==> forall p :: !(a.Covers(p) && b.Covers(p))
  }

  ghost predicate AllDisjoint(es: seq<MapEntry>) {
    forall i, j | 0 <= i < j < |es| :: Disjoint(es[i], es[j])
  }

  lemma {:induction false} MergeSeparates(es: seq<MapEntry>, entry: MapEntry)
    requires Separated(es)
    ensures var m := Merge(es, entry);
      forall i, j | 0 <= i < j < |m| && m[i].typ == m[j].typ ::
        m[i].addr + m[i].length < m[j].addr || m[j].addr + m[j].length < m[i].addr
    ensures Separated(Merge(es, entry))
    decreases |es|
  {
    var i := FirstMatch(es, entry);
    if i < |es| { MergeSeparates(Without(es, i), Join(entry, es[i])); }
  }

  lemma {:induction false} TotalAppend(a: seq<MapEntry>, b: seq<MapEntry>, typ: MapType)
    ensures TotalLength(a + b, typ) == TotalLength(a, typ) + TotalLength(b, typ)
    decreases |b|
  {
    if b == [] {
      assert a + b == a;
    } else {
      var n := |b| - 1;
      TotalAppend(a, b[..n], typ);
      assert (a + b)[..|a + b| - 1] == a + b[..n];
    }
  }

  lemma TotalWithout(es: seq<MapEntry>, i: nat, typ: MapType)
    requires i < |es|
    ensures TotalLength(es, typ) == TotalLength(Without(es, i), typ) + (if es[i].typ == typ then es[i].length else 0)
  {
    TotalAppend(es[..i], es[i + 1..], typ);
    TotalAppend(es[..i], [es[i]], typ);
    TotalAppend(es[..i] + [es[i]], es[i + 1..], typ);
    assert es == es[..i] + [es[i]] + es[i + 1..];
    assert [es[i]][..0] == [];
  }

  lemma {:induction false} MergeConserves(es: seq<MapEntry>, entry: MapEntry, typ: MapType)
    ensures TotalLength(Merge(es, entry), typ) ==
            TotalLength(es, typ) + (if entry.typ == typ then entry.length else 0)
    decreases |es|
  {
    var i := FirstMatch(es, entry);
    if i == |es| {
      TotalAppend(es, [entry], typ);
    } else {
      MergeConserves(Without(es, i), Join(entry, es[i]), typ);
      TotalWithout(es, i, typ);
    }
  }

  lemma CoveredWithout(es: seq<MapEntry>, i: nat, typ: MapType, p: nat)
    requires i < |es|
    ensures Covered(es, typ, p) <==> Covered(Without(es, i), typ, p) || (es[i].typ == typ && es[i].Covers(p))
  {
    var w := Without(es, i);
    if Covered(es, typ, p) {
      var k :| 0 <= k < |es| && es[k].typ == typ && es[k].Covers(p);
      if k < i { assert w[k] == es[k]; } else if k > i { assert w[k - 1] == es[k]; }
    }
    if Covered(w, typ, p) {
      var k :| 0 <= k < |w| && w[k].typ == typ && w[k].Covers(p);
      assert es[if k < i then k else k + 1] == w[k];
    }
  }

  lemma CoveredAppend(es: seq<MapEntry>, entry: MapEntry, typ: MapType, p: nat)
    ensures Covered(es + [entry], typ, p) <==> Covered(es, typ, p) || (entry.typ == typ && entry.Covers(p))
  {
    if entry.typ == typ && entry.Covers(p) { assert (es + [entry])[|es|] == entry; }
    if Covered(es, typ, p) {
      var k :| 0 <= k < |es| && es[k].typ == typ && es[k].Covers(p);
      assert (es + [entry])[k] == es[k];
    }
  }

  /** Nothing that was covered, and nothing of the new range, is lost. */
  lemma {:induction false} MergeCovers(es: seq<MapEntry>, entry: MapEntry, typ: MapType, p: nat)
    requires Covered(es, typ, p) || (entry.typ == typ && entry.Covers(p))
    ensures Covered(Merge(es, entry), typ, p)
    decreases |es|
  {
    var i := FirstMatch(es, entry);
    if i == |es| {
      CoveredAppend(es, entry, typ, p);
    } else {
      CoveredWithout(es, i, typ, p);
      MergeCovers(Without(es, i), Join(entry, es[i]), typ, p);
    }
  }

  lemma JoinIsUnion(entry: MapEntry, ent: MapEntry, p: nat)
    requires Matches(ent, entry) && Disjoint(ent, entry)
    ensures Join(entry, ent).Covers(p) <==> entry.Covers(p) || ent.Covers(p)
  {
    assert ent.Covers(entry.addr) ==> !entry.Covers(entry.addr);
    assert entry.Covers(ent.addr) ==> !ent.Covers(ent.addr);
  }

  /** Same-type ranges that do not overlap are denoted exactly, and stay disjoint. */
  lemma {:induction false} MergeIsUnion(es: seq<MapEntry>, entry: MapEntry, typ: MapType, p: nat)
    requires AllDisjoint(es + [entry])
    ensures Covered(Merge(es, entry), typ, p) <==>
            Covered(es, typ, p) || (entry.typ == typ && entry.Covers(p))
    decreases |es|
  {
    var i := FirstMatch(es, entry);
    var all := es + [entry];
    if i == |es| {
      CoveredAppend(es, entry, typ, p);
    } else {
      var w, joined := Without(es, i), Join(entry, es[i]);
      assert Disjoint(all[i], all[|es|]);
      forall k | 0 <= k < |w| ensures Disjoint(w[k], joined) {
        var o := if k < i then k else k + 1;
        assert w[k] == es[o] == all[o];
        assert Disjoint(all[o], all[|es|]);
        if o < i { assert Disjoint(all[o], all[i]); } else { assert Disjoint(all[i], all[o]); }
        forall q ensures !(w[k].typ == joined.typ && w[k].Covers(q) && joined.Covers(q)) {
          JoinIsUnion(entry, es[i], q);
        }
      }
      forall j, k | 0 <= j < k < |w| ensures Disjoint(w[j], w[k]) {
        var a, b := if j < i then j else j + 1, if k < i then k else k + 1;
        assert Disjoint(all[a], all[b]);
      }
      MergeIsUnion(w, joined, typ, p);
      CoveredWithout(es, i, typ, p);
      JoinIsUnion(entry, es[i], p);
    }
  }

  // Overlapping input is over-counted: the converse of MergeIsUnion.

  function Range(a: nat, n: nat): (r: set<nat>)
    ensures |r| == n && forall p :: p in r <==> a <= p < a + n
  {
    if n == 0 then {} else Range(a, n - 1) + {a + n - 1}
  }

  ghost function Points(es: seq<MapEntry>, typ: MapType): (r: set<nat>)
    ensures forall p :: p in r <==> Covered(es, typ, p)
  {
    if es == [] then {}
    else
      var front, last := es[..|es| - 1], es[|es| - 1];
      assert es == front + [last];
      assert forall p: nat :: Covered(es, typ, p) <==> Covered(front, typ, p) || (last.typ == typ && last.Covers(p)) by {
        forall p: nat { CoveredAppend(front, last, typ, p); }
      }
      Points(front, typ) + (if last.typ == typ then Range(last.addr, last.length) else {})
  }

  ghost predicate TypeDisjoint(es: seq<MapEntry>, typ: MapType) {
    forall i, j | 0 <= i < j < |es| && es[i].typ == typ :: Disjoint(es[i], es[j])
  }

  lemma UnionSize(a: set<nat>, b: set<nat>)
    ensures |a + b| == |a| + |b| - |a * b|
  {}

  ghost predicate ClearOf(es: seq<MapEntry>, last: MapEntry) {
    forall i | 0 <= i < |es| && es[i].typ == last.typ :: Disjoint(es[i], last)
  }

  lemma SubsetSize(a: set<nat>, b: set<nat>)
    requires a <= b
    ensures |a| == |b| <==> a == b
  {
    UnionSize(a, b - a);
    assert b == a + (b - a) && a * (b - a) == {};
  }

  lemma CommonPointMeets(es: seq<MapEntry>, last: MapEntry, p: nat)
    requires p in Points(es, last.typ) && p in Range(last.addr, last.length)
    ensures !ClearOf(es, last)
  {
    var i :| 0 <= i < |es| && es[i].typ == last.typ && es[i].Covers(p);
    assert !Disjoint(es[i], last);
  }

  lemma MeetingHasCommonPoint(es: seq<MapEntry>, last: MapEntry) returns (p: nat)
    requires !ClearOf(es, last)
    ensures p in Points(es, last.typ) && p in Range(last.addr, last.length)
  {
    var i :| 0 <= i < |es| && es[i].typ == last.typ && !Disjoint(es[i], last);
    p :| es[i].Covers(p) && last.Covers(p);
  }

  lemma ClearIffNoCommonPoint(es: seq<MapEntry>, last: MapEntry)
    ensures ClearOf(es, last) <==> Points(es, last.typ) * Range(last.addr, last.length) == {}
  {
    hide ClearOf, Points, Range;
    var a, b := Points(es, last.typ), Range(last.addr, last.length);
    if a * b != {} {
      var p :| p in a * b;
      CommonPointMeets(es, last, p);
    }
    if !ClearOf(es, last) {
      var p := MeetingHasCommonPoint(es, last);
      assert p in a * b;
    }
  }

  lemma TypeDisjointSplit(es: seq<MapEntry>, last: MapEntry, typ: MapType)
    ensures TypeDisjoint(es + [last], typ) <==> TypeDisjoint(es, typ) && (last.typ == typ ==> ClearOf(es, last))
  {
    var all := es + [last];
    assert forall i | 0 <= i < |es| :: all[i] == es[i];
    if TypeDisjoint(all, typ) {
      forall i, j | 0 <= i < j < |es| && es[i].typ == typ ensures Disjoint(es[i], es[j]) {
        assert Disjoint(all[i], all[j]);
      }
      forall i | 0 <= i < |es| && es[i].typ == last.typ && last.typ == typ ensures Disjoint(es[i], last) {
        assert Disjoint(all[i], all[|es|]);
      }
    }
  }

  /** The covered points number at most the total length, and exactly that when nothing overlaps. */
  lemma {:induction false} PointsCount(es: seq<MapEntry>, typ: MapType)
    ensures |Points(es, typ)| <= TotalLength(es, typ)
    ensures |Points(es, typ)| == TotalLength(es, typ) <==> TypeDisjoint(es, typ)
  {
    if es != [] {
      var front, last := es[..|es| - 1], es[|es| - 1];
      assert es == front + [last];
      PointsCount(front, typ);
      TypeDisjointSplit(front, last, typ);
      if last.typ == typ {
        ClearIffNoCommonPoint(front, last);
        UnionSize(Points(front, typ), Range(last.addr, last.length));
      }
    }
  }

  lemma SeparatedIsDisjoint(es: seq<MapEntry>, typ: MapType)
    requires Separated(es)
    ensures TypeDisjoint(es, typ)
  {}

  /** On a map whose entries are already separated, the merged map denotes exactly the old
      ranges plus the new one if and only if no two ranges of the new entry's type overlap. */
  lemma MergeIsExactIff(es: seq<MapEntry>, entry: MapEntry)
    requires Separated(es)
    ensures Points(Merge(es, entry), entry.typ) == Points(es + [entry], entry.typ) <==>
            TypeDisjoint(es + [entry], entry.typ)
  {
    var typ, merged := entry.typ, Merge(es, entry);
    MergeSeparates(es, entry);
    SeparatedIsDisjoint(merged, typ);
    PointsCount(merged, typ);
    PointsCount(es + [entry], typ);
    MergeConserves(es, entry, typ);
    TotalAppend(es, [entry], typ);
    MergeCoversAll(es, entry);
    SubsetSize(Points(es + [entry], typ), Points(merged, typ));
  }

  /** Overlapping ranges make the merged one too long. */
  lemma MergeOverlapExample()
    ensures var es, entry := [MapEntry(0, 10, Available)], MapEntry(5, 10, Available);
      Covered(Merge(es, entry), Available, 17) && !Covered(es + [entry], Available, 17)
  {
    var es, entry := [MapEntry(0, 10, Available)], MapEntry(5, 10, Available);
    assert Matches(es[0], entry) && FirstMatch(es, entry) == 0 && Without(es, 0) == [];
    assert Merge(es, entry) == Merge([], MapEntry(0, 20, Available)) == [MapEntry(0, 20, Available)];
    assert Merge(es, entry)[0].Covers(17);
  }

  lemma MergeCoversAll(es: seq<MapEntry>, entry: MapEntry)
    ensures forall typ, p: nat :: Covered(es + [entry], typ, p) ==> Covered(Merge(es, entry), typ, p)
  {
    forall typ, p: nat | Covered(es + [entry], typ, p) ensures Covered(Merge(es, entry), typ, p) {
      CoveredAppend(es, entry, typ, p);
      MergeCovers(es, entry, typ, p);
    }
  }

  function Keep(es: seq<MapEntry>, merged: MapEntry): seq<MapEntry> {
    if es == [] then []
    else (if Matches(es[0], merged) then [] else [es[0]]) + Keep(es[1..], merged)
  }

  function Merged(es: seq<MapEntry>, entry: MapEntry): MapEntry
    decreases |es|
  {
    var i := FirstMatch(es, entry);
    if i == |es| then entry else Merged(Without(es, i), Join(entry, es[i]))
  }

  lemma {:induction false} KeepAppend(a: seq<MapEntry>, b: seq<MapEntry>, m: MapEntry)
    ensures Keep(a + b, m) == Keep(a, m) + Keep(b, m)
    decreases |a|
  {
    if a == [] {
      assert a + b == b;
    } else {
      assert (a + b)[1..] == a[1..] + b;
      KeepAppend(a[1..], b, m);
    }
  }

  lemma {:induction false} KeepAll(es: seq<MapEntry>, m: MapEntry)
    requires forall k | 0 <= k < |es| :: !Matches(es[k], m)
    ensures Keep(es, m) == es
  {
    if es != [] { KeepAll(es[1..], m); }
  }

  lemma {:induction false} MergedContains(es: seq<MapEntry>, entry: MapEntry)
    ensures var m := Merged(es, entry); m.typ == entry.typ && m.addr <= entry.addr && entry.End() <= m.End()
    decreases |es|
  {
    var i := FirstMatch(es, entry);
    if i < |es| { MergedContains(Without(es, i), Join(entry, es[i])); }
  }

  /** The result is the old map, in its old order, without exactly the entries that touch the
      merged entry, followed by the merged entry. */
  lemma {:induction false} MergeKeepsOrder(es: seq<MapEntry>, entry: MapEntry)
    ensures Merge(es, entry) == Keep(es, Merged(es, entry)) + [Merged(es, entry)]
    decreases |es|
  {
    var i := FirstMatch(es, entry);
    var m := Merged(es, entry);
    if i == |es| {
      KeepAll(es, entry);
    } else {
      var joined := Join(entry, es[i]);
      MergeKeepsOrder(Without(es, i), joined);
      MergedContains(Without(es, i), joined);
      assert Matches(es[i], m);
      KeepAppend(es[..i], es[i + 1..], m);
      KeepAppend(es[..i], [es[i]], m);
      KeepAppend(es[..i] + [es[i]], es[i + 1..], m);
      assert es == es[..i] + [es[i]] + es[i + 1..];
    }
  }

  /** The part of the source's `BootInfo` that the merge works on. */
  class BootInfo {
    const memoryMap: array<MapEntry>
    var numMemoryMapEntries: nat

    ghost predicate Valid()
      reads this
    {
      memoryMap.Length == MAX_MEMORY_MAP_ENTRIES && numMemoryMapEntries <= memoryMap.Length
    }

    function MemoryMap(): seq<MapEntry>
      requires Valid()
      reads this, memoryMap
    {
      memoryMap[..numMemoryMapEntries]
    }

    constructor ()
      ensures Valid() && MemoryMap() == [] && fresh(memoryMap)
    {
      memoryMap := new MapEntry[MAX_MEMORY_MAP_ENTRIES](_ => MapEntry(0, 0, Unknown));
      numMemoryMapEntries := 0;
    }

    method AddMemoryMapEntry(entry: MapEntry) returns (ok: bool)
      requires Valid()
      modifies this, memoryMap
      ensures Valid()
      ensures ok == (old(numMemoryMapEntries) < 128)
      ensures MemoryMap() == if ok then Merge(old(MemoryMap()), entry) else old(MemoryMap())
    {
      if numMemoryMapEntries >= memoryMap.Length {
        return false;
      }
      var current := entry;
      label merge: while true
        invariant Valid() && numMemoryMapEntries < MAX_MEMORY_MAP_ENTRIES
        invariant Merge(MemoryMap(), current) == Merge(old(MemoryMap()), entry)
        decreases numMemoryMapEntries
      {
        for index := 0 to numMemoryMapEntries
          invariant forall k | 0 <= k < index :: !Matches(memoryMap[k], current)
        {
          var ent := memoryMap[index];
          if current.typ != ent.typ {
            continue;
          }
          if !ent.Overlaps(current) {
            continue;
          }
          FirstMatchAt(MemoryMap(), current, index);
          current := Join(current, ent);
          DeleteMemoryMapEntry(index);
          continue merge;
        }
        FirstMatchAt(MemoryMap(), current, numMemoryMapEntries);
        break;
      }
      memoryMap[numMemoryMapEntries] := current;
      numMemoryMapEntries := numMemoryMapEntries + 1;
      return true;
    }

    method DeleteMemoryMapEntry(idx: nat)
      requires Valid() && idx < numMemoryMapEntries
      modifies this, memoryMap
      ensures Valid() && numMemoryMapEntries == old(numMemoryMapEntries) - 1
      ensures MemoryMap() == Without(old(MemoryMap()), idx)
    {
      for index := idx to numMemoryMapEntries - 1
        invariant numMemoryMapEntries == old(numMemoryMapEntries)
        invariant memoryMap[..idx] == old(memoryMap[..idx])
        invariant memoryMap[idx..index] == old(memoryMap[idx + 1..index + 1])
        invariant memoryMap[index] == old(memoryMap[idx])
        invariant memoryMap[index + 1..] == old(memoryMap[index + 1..])
      {
        memoryMap[index], memoryMap[index + 1] := memoryMap[index + 1], memoryMap[index];
      }
      ghost var n := numMemoryMapEntries;
      assert memoryMap[..n - 1] == memoryMap[..idx] + memoryMap[idx..n - 1];
      numMemoryMapEntries := numMemoryMapEntries - 1;
    }
  }

  lemma FirstMatchAt(es: seq<MapEntry>, entry: MapEntry, i: nat)
    requires i <= |es| && (i < |es| ==> Matches(es[i], entry))
    requires forall k | 0 <= k < i :: !Matches(es[k], entry)
    ensures FirstMatch(es, entry) == i
  {}
}
