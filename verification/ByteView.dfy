/** Physical memory byte by byte: the little-endian bytes of its words. */
module ByteViews {
  import opened Entries
  import opened PhysMem
  import opened Elfs

  /** Byte `k` of a word, the lowest first. */
  function ByteOf(w: nat, k: nat): Byte {
    if k == 0 then w % 256 else ByteOf(w / 256, k - 1)
  }

  function SetByte(w: nat, k: nat, b: Byte): nat {
    if k == 0 then w / 256 * 256 + b else SetByte(w / 256, k - 1, b) * 256 + w % 256
  }

  lemma {:induction false} SetByteReads(w: nat, k: nat, b: Byte, j: nat)
    ensures ByteOf(SetByte(w, k, b), j) == if j == k then b else ByteOf(w, j)
  {
    if k == 0 {
      assert (w / 256 * 256 + b) / 256 == w / 256;
    } else {
      var rest := SetByte(w / 256, k - 1, b);
      assert (rest * 256 + w % 256) / 256 == rest;
      if j > 0 { SetByteReads(w / 256, k - 1, b, j - 1); }
    }
  }

  lemma {:induction false} SetByteFits(w: nat, k: nat, b: Byte, n: nat)
    requires w < Limit(n) && k < n
    ensures SetByte(w, k, b) < Limit(n)
  {
    var m := Limit(n - 1);
    HighPart(w, m);
    if k > 0 {
      SetByteFits(w / 256, k - 1, b, n - 1);
      HighAndLow(SetByte(w / 256, k - 1, b), w % 256, m);
    } else {
      HighAndLow(w / 256, b, m);
    }
  }

  lemma HighPart(w: nat, m: nat)
    requires w < 256 * m
    ensures w / 256 < m
  {}

  lemma HighAndLow(high: nat, low: nat, m: nat)
    requires high < m && low < 256
    ensures high * 256 + low < 256 * m
  {}

  function ByteAt(words: seq<Word>, a: nat): Byte {
    if a / 8 < |words| then ByteOf(words[a / 8], a % 8) else 0
  }

  /** A word is the number that its eight bytes spell, the lowest first. */
  lemma WordIsBytes(words: seq<Word>, s: nat, bytes: seq<Byte>)
    requires s < |words| && |bytes| == 8 && forall k: nat | k < 8 :: bytes[k] == ByteAt(words, 8 * s + k)
    ensures words[s] == Le(bytes)
  {
    Limits();
    forall k: nat | k < 8 ensures bytes[k] == ByteOf(words[s], k) {
      assert (8 * s + k) / 8 == s && (8 * s + k) % 8 == k;
    }
    LeOfBytes(words[s], bytes);
  }

  lemma {:induction false} LeOfBytes(w: nat, bytes: seq<Byte>)
    requires w < Limit(|bytes|) && forall k: nat | k < |bytes| :: bytes[k] == ByteOf(w, k)
    ensures Le(bytes) == w
  {
    if bytes != [] {
      HighPart(w, Limit(|bytes| - 1));
      forall k: nat | k < |bytes| - 1 ensures bytes[1..][k] == ByteOf(w / 256, k) {
        assert bytes[k + 1] == ByteOf(w, k + 1);
      }
      LeOfBytes(w / 256, bytes[1..]);
    }
  }

  /** `data` was written at `addr`, and nothing else changed. */
  ghost predicate BytesSet(words: seq<Word>, words': seq<Word>, addr: nat, data: seq<Byte>) {
    && |words'| == |words|
    && (forall x: nat :: ByteAt(words', x) == if addr <= x < addr + |data| then data[x - addr] else ByteAt(words, x))
    && (forall s: nat | s < |words| && (8 * s + 8 <= addr || addr + |data| <= 8 * s) :: words'[s] == words[s])
  }

  method WriteByte(pm: PhysicalMemory, addr: nat, b: Byte)
    requires pm.Valid() && addr / 8 < |pm.words|
    modifies pm
    ensures pm.Valid() && BytesSet(old(pm.words), pm.words, addr, [b])
  {
    var w := pm.words[addr / 8];
    Limits();
    SetByteFits(w, addr % 8, b, 8);
    pm.words := pm.words[addr / 8 := SetByte(w, addr % 8, b)];
    forall x: nat ensures ByteAt(pm.words, x) == if x == addr then b else ByteAt(old(pm.words), x) {
      SetByteReads(w, addr % 8, b, x % 8);
    }
  }

  lemma BytesExtend(words: seq<Word>, words1: seq<Word>, words2: seq<Word>, addr: nat, data: seq<Byte>, b: Byte)
    requires BytesSet(words, words1, addr, data) && BytesSet(words1, words2, addr + |data|, [b])
    ensures BytesSet(words, words2, addr, data + [b])
  {}

  /** `copy_nonoverlapping` into memory. */
  method CopyBytes(pm: PhysicalMemory, addr: nat, data: seq<Byte>)
    requires pm.Valid() && addr + |data| <= 8 * |pm.words|
    modifies pm
    ensures pm.Valid() && BytesSet(old(pm.words), pm.words, addr, data)
  {
    hide ByteAt, BytesSet;
    StartBytes(pm.words, addr);
    for i := 0 to |data|
      invariant pm.Valid() && |pm.words| == old(|pm.words|) && BytesSet(old(pm.words), pm.words, addr, data[..i])
    {
      ghost var before := pm.words;
      WriteByte(pm, addr + i, data[i]);
      BytesExtend(old(pm.words), before, pm.words, addr, data[..i], data[i]);
      assert data[..i] + [data[i]] == data[..i + 1];
      SameSize(old(pm.words), pm.words, addr, data[..i + 1]);
    }
    assert data[..|data|] == data;
  }

  lemma StartBytes(words: seq<Word>, addr: nat)
    ensures BytesSet(words, words, addr, [])
  {}

  lemma SameSize(words: seq<Word>, words': seq<Word>, addr: nat, data: seq<Byte>)
    requires BytesSet(words, words', addr, data)
    ensures |words'| == |words|
  {}

  function Zeros(count: nat): (z: seq<Byte>)
    ensures |z| == count
  {
    seq(count, _ => 0)
  }

  /** `write_bytes(ptr, 0, count)`. */
  method ZeroBytes(pm: PhysicalMemory, addr: nat, count: nat)
    requires pm.Valid() && addr + count <= 8 * |pm.words|
    modifies pm
    ensures pm.Valid() && BytesSet(old(pm.words), pm.words, addr, Zeros(count))
  {
    CopyBytes(pm, addr, Zeros(count));
  }

  /** Words that stay keep their bytes. */
  lemma SameWordsSameBytes(words: seq<Word>, words': seq<Word>, a: nat)
    requires |words'| == |words| && (a / 8 < |words| ==> words'[a / 8] == words[a / 8])
    ensures ByteAt(words', a) == ByteAt(words, a)
  {}
}
