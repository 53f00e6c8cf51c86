/** The ELF program headers (shared/elf/src/lib.rs), laid out as the System V gABI, chapter 5
    "Program Header", has it for 64-bit files. */
module Elfs {
  import opened Wrappers

  type Byte = b: nat | b < 256

  const HEADER_SIZE: nat := 56

  // Little-endian numbers.

  /** `from_le_bytes`. */
  function Le(bytes: seq<Byte>): nat {
    if bytes == [] then 0 else bytes[0] + 256 * Le(bytes[1..])
  }

  /** The `count` low bytes of a number, lowest first. */
  function ToLe(v: nat, count: nat): (bytes: seq<Byte>)
    ensures |bytes| == count
  {
    if count == 0 then [] else [v % 256] + ToLe(v / 256, count - 1)
  }

  function Limit(count: nat): (l: nat)
    ensures l > 0
  {
    if count == 0 then 1 else 256 * Limit(count - 1)
  }

  lemma {:induction false} LeInverse(v: nat, count: nat)
    requires v < Limit(count)
    ensures Le(ToLe(v, count)) == v
  {
    if count > 0 {
      LeInverse(v / 256, count - 1);
      assert ToLe(v, count)[1..] == ToLe(v / 256, count - 1);
    }
  }

  lemma Limits()
    ensures Limit(4) == 0x1_0000_0000 && Limit(8) == 0x1_0000_0000_0000_0000
  {
    assert Limit(4) == 0x1_0000_0000;
  }

  // Headers.

  datatype HeaderType =
    | Null | Load | Dynamic | Interp | Note | Shlib | HeaderTable | ThreadLocalStorage
    | Os(value: nat) | Proc(value: nat)

  function TypeFrom(value: nat): Option<HeaderType> {
    match value
    case 0 => Some(Null)
    case 1 => Some(Load)
    case 2 => Some(Dynamic)
    case 3 => Some(Interp)
    case 4 => Some(Note)
    case 5 => Some(Shlib)
    case 6 => Some(HeaderTable)
    case 7 => Some(ThreadLocalStorage)
    case _ =>
      if 0x6000_0000 <= value <= 0x6fff_ffff then Some(Os(value))
      else if 0x7000_0000 <= value <= 0x7fff_ffff then Some(Proc(value))
      else None
  }

  datatype ProgramHeader = ProgramHeader(typ: HeaderType, flags: nat, offset: nat, vaddr: nat, paddr: nat,
                                         fileSize: nat, memorySize: nat, alignment: nat)

  /** `ProgramHeader::parse`; of the flags only EXECUTE, WRITE and READ are kept. */
  function ParseHeader(bytes: seq<Byte>): Option<ProgramHeader>
    requires |bytes| >= HEADER_SIZE
  {
    match TypeFrom(Le(bytes[0..4]))
    case None => None
    case Some(typ) =>
      Some(ProgramHeader(typ, Le(bytes[4..8]) % 8, Le(bytes[8..16]), Le(bytes[16..24]), Le(bytes[24..32]),
                         Le(bytes[32..40]), Le(bytes[40..48]), Le(bytes[48..56])))
  }

  function TypeValue(typ: HeaderType): nat {
    match typ
    case Null => 0
    case Load => 1
    case Dynamic => 2
    case Interp => 3
    case Note => 4
    case Shlib => 5
    case HeaderTable => 6
    case ThreadLocalStorage => 7
    case Os(v) => v
    case Proc(v) => v
  }

  /** A header that a file can hold. */
  predicate Storable(h: ProgramHeader) {
    && (h.typ.Os? ==> 0x6000_0000 <= h.typ.value <= 0x6fff_ffff)
    && (h.typ.Proc? ==> 0x7000_0000 <= h.typ.value <= 0x7fff_ffff)
    && h.flags < 8 && h.offset < Limit(8) && h.vaddr < Limit(8) && h.paddr < Limit(8)
    && h.fileSize < Limit(8) && h.memorySize < Limit(8) && h.alignment < Limit(8)
  }

  function WriteHeader(h: ProgramHeader): (bytes: seq<Byte>)
    ensures |bytes| == HEADER_SIZE
  {
    ToLe(TypeValue(h.typ), 4) + ToLe(h.flags, 4) + ToLe(h.offset, 8) + ToLe(h.vaddr, 8) + ToLe(h.paddr, 8) +
    ToLe(h.fileSize, 8) + ToLe(h.memorySize, 8) + ToLe(h.alignment, 8)
  }

  /** Reading a written header, whatever follows it in its table entry, gives it back. */
  lemma HeaderRoundTrip(h: ProgramHeader, rest: seq<Byte>)
    requires Storable(h)
    ensures ParseHeader(WriteHeader(h) + rest) == Some(h)
  {
    hide Le, ToLe;
    var bytes := WriteHeader(h) + rest;
    Limits();
    LeInverse(TypeValue(h.typ), 4);
    LeInverse(h.flags, 4);
    assert bytes[0..4] == ToLe(TypeValue(h.typ), 4) && bytes[4..8] == ToLe(h.flags, 4);
    LeInverse(h.offset, 8);
    LeInverse(h.vaddr, 8);
    LeInverse(h.paddr, 8);
    LeInverse(h.fileSize, 8);
    LeInverse(h.memorySize, 8);
    LeInverse(h.alignment, 8);
    assert bytes[8..16] == ToLe(h.offset, 8) && bytes[16..24] == ToLe(h.vaddr, 8) && bytes[24..32] == ToLe(h.paddr, 8);
    assert bytes[32..40] == ToLe(h.fileSize, 8) && bytes[40..48] == ToLe(h.memorySize, 8);
    assert bytes[48..56] == ToLe(h.alignment, 8);
  }

  /** A field of `size` bytes that starts with these two and is zero otherwise. */
  function Field(low: Byte, high: Byte, size: nat): (bytes: seq<Byte>)
    requires size >= 2
    ensures |bytes| == size
  {
    if size == 2 then [low, high] else Field(low, high, size - 1) + [0]
  }

  lemma {:induction false} FieldValue(low: Byte, high: Byte, size: nat)
    requires size >= 2
    ensures Le(Field(low, high, size)) == low + 256 * high
  {
    var bytes := Field(low, high, size);
    if size == 2 {
      var tail: seq<Byte> := [high];
      assert bytes[1..] == tail && tail[1..] == [];
      assert Le(tail) == high;
    } else {
      FieldValue(low, high, size - 1);
      LeAppendZero(Field(low, high, size - 1));
    }
  }

  lemma {:induction false} LeAppendZero(bytes: seq<Byte>)
    ensures Le(bytes + [0]) == Le(bytes)
  {
    if bytes != [] {
      assert (bytes + [0])[1..] == bytes[1..] + [0];
      LeAppendZero(bytes[1..]);
    } else {
      assert ([] + [0])[1..] == [];
    }
  }

  /** The place, the width and the byte order of every field. */
  lemma HeaderExample()
    ensures ParseHeader(Field(1, 0, 4) + Field(5, 0, 4) + Field(0, 16, 8) + Field(1, 2, 8) + Field(3, 0, 8) +
                        Field(4, 0, 8) + Field(6, 1, 8) + Field(0, 32, 8)) ==
            Some(ProgramHeader(Load, 5, 0x1000, 0x201, 3, 4, 0x106, 0x2000))
  {
    hide Le, Field;
    FieldValue(1, 0, 4);
    FieldValue(5, 0, 4);
    FieldValue(0, 16, 8);
    FieldValue(1, 2, 8);
    FieldValue(3, 0, 8);
    FieldValue(4, 0, 8);
    FieldValue(6, 1, 8);
    FieldValue(0, 32, 8);
    var bytes := Field(1, 0, 4) + Field(5, 0, 4) + Field(0, 16, 8) + Field(1, 2, 8) + Field(3, 0, 8) +
                 Field(4, 0, 8) + Field(6, 1, 8) + Field(0, 32, 8);
    assert bytes[0..4] == Field(1, 0, 4) && bytes[4..8] == Field(5, 0, 4) && bytes[8..16] == Field(0, 16, 8);
    assert bytes[16..24] == Field(1, 2, 8) && bytes[24..32] == Field(3, 0, 8) && bytes[32..40] == Field(4, 0, 8);
    assert bytes[40..48] == Field(6, 1, 8) && bytes[48..56] == Field(0, 32, 8);
  }

  /** A header parses unless its type is one that the gABI leaves open. */
  lemma ParsesIff(bytes: seq<Byte>)
    requires |bytes| >= HEADER_SIZE
    ensures ParseHeader(bytes).None? <==> 7 < Le(bytes[0..4]) < 0x6000_0000 || Le(bytes[0..4]) > 0x7fff_ffff
    ensures ParseHeader(bytes).Some? ==> (ParseHeader(bytes).value.typ == Load <==> Le(bytes[0..4]) == 1)
  {
    hide Le;
  }

  // The table.

  /** The parts of an ELF file that the loader uses. */
  datatype Elf = Elf(bytes: seq<Byte>, tableOffset: nat, entrySize: nat, numEntries: nat) {
    /** The whole table lies in the file and its entries hold a header; otherwise slicing panics. */
    predicate TableFits() {
      entrySize >= HEADER_SIZE && tableOffset + entrySize * numEntries <= |bytes|
    }

    function EntryAt(k: nat): (entry: seq<Byte>)
      requires TableFits() && k < numEntries
      ensures |entry| == entrySize
    {
      EntryInTable(k);
      bytes[tableOffset + entrySize * k..tableOffset + entrySize * k + entrySize]
    }

    lemma EntryInTable(k: nat)
      requires TableFits() && k < numEntries
      ensures tableOffset + entrySize * k + entrySize <= |bytes|
    {
      assert entrySize * (k + 1) <= entrySize * numEntries;
    }

    function HeaderAt(k: nat): Option<ProgramHeader>
      requires TableFits() && k < numEntries
    {
      var entry := EntryAt(k);
      ParseHeader(entry)
    }

    /** The headers that iteration from entry `k` yields. */
    function HeadersFrom(k: nat): seq<ProgramHeader>
      requires TableFits()
      decreases numEntries - k
    {
      if k >= numEntries || HeaderAt(k).None? then [] else [HeaderAt(k).value] + HeadersFrom(k + 1)
    }
  }

  /** Iteration yields the headers up to the first one of an unknown type, and nothing after it. */
  lemma {:induction false} HeadersArePrefix(elf: Elf, k: nat)
    requires elf.TableFits() && k <= elf.numEntries
    ensures var n := k + |elf.HeadersFrom(k)|;
      && n <= elf.numEntries && (n < elf.numEntries ==> elf.HeaderAt(n) == None)
      && forall j | k <= j < n :: elf.HeaderAt(j) == Some(elf.HeadersFrom(k)[j - k])
    decreases elf.numEntries - k
  {
    hide ParseHeader, Elf.EntryAt, Elf.HeaderAt, Elf.TableFits;
    if k < elf.numEntries && elf.HeaderAt(k).Some? { HeadersArePrefix(elf, k + 1); }
  }

  /** A table of headers, each followed by the same padding. */
  function WriteTable(headers: seq<ProgramHeader>, pad: seq<Byte>): seq<Byte> {
    if headers == [] then [] else WriteHeader(headers[0]) + pad + WriteTable(headers[1..], pad)
  }

  /** A file that holds such a table behind the headers `done` of the same table. */
  function TableFile(before: seq<Byte>, done: seq<ProgramHeader>, headers: seq<ProgramHeader>, pad: seq<Byte>,
                     rest: seq<Byte>): Elf {
    Elf(before + WriteTable(done, pad) + WriteTable(headers, pad) + rest, |before|, HEADER_SIZE + |pad|, |done| + |headers|)
  }

  lemma TableFileFits(before: seq<Byte>, done: seq<ProgramHeader>, headers: seq<ProgramHeader>, pad: seq<Byte>, rest: seq<Byte>)
    ensures TableFile(before, done, headers, pad, rest).TableFits()
  {
    var size := HEADER_SIZE + |pad|;
    TableLength(done, pad);
    TableLength(headers, pad);
    assert size * |done| + size * |headers| == size * (|done| + |headers|);
  }

  /** The first header that is not done is the next entry, and with it done the file is the same. */
  lemma TableFileNext(before: seq<Byte>, done: seq<ProgramHeader>, h: ProgramHeader, more: seq<ProgramHeader>, pad: seq<Byte>,
                      rest: seq<Byte>)
    ensures var elf := TableFile(before, done, [h] + more, pad, rest);
      && elf.TableFits() && elf.EntryAt(|done|) == WriteHeader(h) + pad
      && elf == TableFile(before, done + [h], more, pad, rest)
  {
    hide WriteHeader, WriteTable;
    var elf := TableFile(before, done, [h] + more, pad, rest);
    var lead, entry, tail := before + WriteTable(done, pad), WriteHeader(h) + pad, WriteTable(more, pad) + rest;
    TableFileFits(before, done, [h] + more, pad, rest);
    TableLength(done, pad);
    TableAppend(done, h, pad);
    TableStarts(h, more, pad);
    Regroup(before, WriteTable(done, pad), entry, WriteTable(more, pad), rest);
    Middle(lead, entry, tail, elf.tableOffset + elf.entrySize * |done|);
  }

  lemma TableStarts(h: ProgramHeader, more: seq<ProgramHeader>, pad: seq<Byte>)
    ensures WriteTable([h] + more, pad) == WriteHeader(h) + pad + WriteTable(more, pad)
  {
    assert ([h] + more)[1..] == more;
  }

  lemma Regroup(a: seq<Byte>, b: seq<Byte>, c: seq<Byte>, d: seq<Byte>, e: seq<Byte>)
    ensures a + b + (c + d) + e == (a + b) + c + (d + e) == a + (b + c) + d + e
  {}

  lemma Middle(a: seq<Byte>, b: seq<Byte>, c: seq<Byte>, start: nat)
    requires start == |a|
    ensures (a + b + c)[start..start + |b|] == b
  {}

  /** Iteration over a written table yields the headers of the table, wherever it lies in the file. */
  lemma {:induction false} TableRoundTrip(before: seq<Byte>, done: seq<ProgramHeader>, headers: seq<ProgramHeader>,
                                          pad: seq<Byte>, rest: seq<Byte>)
    requires forall h | h in headers :: Storable(h)
    ensures var elf := TableFile(before, done, headers, pad, rest);
      elf.TableFits() && elf.HeadersFrom(|done|) == headers
    decreases |headers|
  {
    hide ParseHeader, WriteHeader, TableFile, Elf.TableFits, Elf.EntryAt, Storable;
    TableFileFits(before, done, headers, pad, rest);
    FileEntries(before, done, headers, pad, rest);
    if headers != [] {
      var h, more := headers[0], headers[1..];
      assert headers == [h] + more;
      TableFileNext(before, done, h, more, pad, rest);
      TableRoundTrip(before, done + [h], more, pad, rest);
      HeaderRoundTrip(h, pad);
    }
  }

  lemma FileEntries(before: seq<Byte>, done: seq<ProgramHeader>, headers: seq<ProgramHeader>, pad: seq<Byte>, rest: seq<Byte>)
    ensures TableFile(before, done, headers, pad, rest).numEntries == |done| + |headers|
  {}

  lemma {:induction false} TableLength(headers: seq<ProgramHeader>, pad: seq<Byte>)
    ensures |WriteTable(headers, pad)| == (HEADER_SIZE + |pad|) * |headers|
  {
    if headers != [] {
      TableLength(headers[1..], pad);
      assert (HEADER_SIZE + |pad|) * |headers| == (HEADER_SIZE + |pad|) * |headers[1..]| + (HEADER_SIZE + |pad|);
    }
  }

  lemma {:induction false} TableAppend(headers: seq<ProgramHeader>, h: ProgramHeader, pad: seq<Byte>)
    ensures WriteTable(headers + [h], pad) == WriteTable(headers, pad) + (WriteHeader(h) + pad)
  {
    if headers != [] {
      TableAppend(headers[1..], h, pad);
      assert (headers + [h])[1..] == headers[1..] + [h];
    }
  }

  class ProgramHeaderIter {
    const elf: Elf
    var index: nat

    constructor (elf: Elf)
      ensures this.elf == elf && index == 0
    {
      this.elf, index := elf, 0;
    }

    /** `next`. An entry that does not parse ends the iteration and stays the next one. */
    method Next() returns (header: Option<ProgramHeader>)
      requires elf.TableFits() && index <= elf.numEntries
      modifies this`index
      ensures index <= elf.numEntries
      ensures header.None? ==> index == old(index) && elf.HeadersFrom(old(index)) == []
      ensures header.Some? ==> elf.HeadersFrom(old(index)) == [header.value] + elf.HeadersFrom(index)
      ensures header.Some? ==> index == old(index) + 1
    {
      hide ParseHeader;
      if index >= elf.numEntries { return None; }
      elf.EntryInTable(index);
      var start := elf.tableOffset + elf.entrySize * index;
      var end := start + elf.entrySize;
      header := ParseHeader(elf.bytes[start..end]);
      if header.Some? { index := index + 1; }
    }
  }

  // Loadable segments.

  function Loads(headers: seq<ProgramHeader>): seq<ProgramHeader> {
    if headers == [] then []
    else (if headers[0].typ == Load then [headers[0]] else []) + Loads(headers[1..])
  }

  lemma {:induction false} LoadsIff(headers: seq<ProgramHeader>, h: ProgramHeader)
    ensures h in Loads(headers) <==> h in headers && h.typ == Load
  {
    if headers != [] {
      LoadsIff(headers[1..], h);
      assert headers == [headers[0]] + headers[1..];
    }
  }

  /** Number of pages of a segment. */
  function PageCount(h: ProgramHeader): nat {
    (h.memorySize + 4095) / 4096
  }

  /** It is the least number of pages that hold the segment. */
  lemma PageCountIsLeast(h: ProgramHeader, n: nat)
    ensures h.memorySize <= n * 4096 <==> PageCount(h) <= n
  {}

  function TotalPages(loads: seq<ProgramHeader>): nat {
    if loads == [] then 0 else TotalPages(loads[..|loads| - 1]) + PageCount(loads[|loads| - 1])
  }

  /** What a byte of a segment is (gABI chapter 5): from the file, or zero beyond the file size. */
  function SegmentByte(elf: Elf, h: ProgramHeader, i: nat): Byte {
    if i < h.fileSize && h.offset + i < |elf.bytes| then elf.bytes[h.offset + i] else 0
  }
}
