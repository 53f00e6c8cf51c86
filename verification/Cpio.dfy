/** The CPIO reader (kernel/src/cpio.rs) for archives in the "New ASCII Format" of cpio(5), and a
    writer that it inverts. */
module Cpios {
  import opened Wrappers
  import opened Elfs

  const HEADER: nat := 110
  const FIELDS: nat := 13
  const FILE_SIZE: nat := 6
  const NAME_SIZE: nat := 11
  /** 0o070701. */
  const MAGIC: nat := 29121

  /** "TRAILER!!!", the name of the entry that closes an archive. */
  const TRAILER: seq<Byte> := [0x54, 0x52, 0x41, 0x49, 0x4c, 0x45, 0x52, 0x21, 0x21, 0x21]

  // Numbers.

  function DigitValue(b: Byte): nat {
    if 0x30 <= b <= 0x39 then b - 0x30
    else if 0x41 <= b <= 0x5a then b - 0x41 + 10
    else if 0x61 <= b <= 0x7a then b - 0x61 + 10
    else 36
  }

  function Digits(bytes: seq<Byte>, radix: nat): Option<nat> {
    if bytes == [] then Some(0)
    else
      var last := DigitValue(bytes[|bytes| - 1]);
      match Digits(bytes[..|bytes| - 1], radix)
      case None => None
      case Some(v) => if last < radix then Some(v * radix + last) else None
  }

  /** `from_utf8` and `from_str_radix`: at least one digit, after an optional plus sign. Bytes that are
      no UTF-8 are no digits either. */
  function ParseRadix(bytes: seq<Byte>, radix: nat): Option<nat> {
    if bytes == [] then None
    else if bytes[0] == 0x2b then (if |bytes| == 1 then None else Digits(bytes[1..], radix))
    else Digits(bytes, radix)
  }

  function AsciiOf(c: char): Byte
    requires c < 128 as char
  {
    c as int
  }

  /** The bytes of a text in ASCII. */
  function Ascii(text: string): (bytes: seq<Byte>)
    requires forall k | 0 <= k < |text| :: text[k] < 128 as char
    ensures |bytes| == |text|
  {
    seq(|text|, k requires 0 <= k < |text| => AsciiOf(text[k]))
  }

  /** Digits are the decimal ones and the letters, in either case. */
  lemma DigitIff(b: Byte, d: nat)
    requires d < 16
    ensures DigitValue(b) == d <==> b == Ascii("0123456789abcdef")[d] || b == Ascii("0123456789ABCDEF")[d]
  {}

  lemma {:induction false} DigitsIff(bytes: seq<Byte>, radix: nat)
    ensures Digits(bytes, radix).Some? <==> forall b | b in bytes :: DigitValue(b) < radix
  {
    if bytes != [] {
      var front := bytes[..|bytes| - 1];
      assert bytes == front + [bytes[|bytes| - 1]];
      DigitsIff(front, radix);
    }
  }

  /** A numeral is one or more digits, after at most one plus sign. */
  lemma NumeralIff(bytes: seq<Byte>, radix: nat)
    requires radix <= 16
    ensures ParseRadix(bytes, radix).Some? <==>
      var digits := if Ascii("+") <= bytes then bytes[1..] else bytes;
      digits != [] && forall b | b in digits :: DigitValue(b) < radix
    ensures Ascii("+") <= bytes && |bytes| > 1 && bytes[1] != Ascii("+")[0] ==>
      ParseRadix(bytes, radix) == ParseRadix(bytes[1..], radix)
  {
    DigitsIff(bytes, radix);
    if bytes != [] { DigitsIff(bytes[1..], radix); }
  }

  function Power(radix: nat, count: nat): nat {
    if count == 0 then 1 else Power(radix, count - 1) * radix
  }

  /** Parsed fields never overflow: their value is below the radix to the number of digits. */
  lemma {:induction false} DigitsFit(bytes: seq<Byte>, radix: nat)
    requires Digits(bytes, radix).Some?
    ensures Digits(bytes, radix).value < Power(radix, |bytes|)
  {
    if bytes != [] {
      var front := bytes[..|bytes| - 1];
      DigitsFit(front, radix);
      var v := Digits(front, radix).value;
      assert v * radix + radix <= Power(radix, |front|) * radix by { MulBelow(v, Power(radix, |front|), radix); }
    }
  }

  lemma MulBelow(a: nat, b: nat, r: nat)
    requires a < b
    ensures a * r + r <= b * r
  {
    assert (a + 1) * r <= b * r;
  }

  /** A header field fits the 32 bits it is parsed into. */
  lemma FieldFits(data: seq<Byte>, k: nat)
    requires |data| >= HEADER && k < FIELDS && FieldAt(data, k).Some?
    ensures FieldAt(data, k).value < FIELD_LIMIT
  {
    var field := data[6 + 8 * k..14 + 8 * k];
    assert Power(16, 4) == 0x1_0000;
    assert Power(16, 8) == FIELD_LIMIT && 16 * Power(16, 7) == FIELD_LIMIT;
    DigitsFit(if field[0] == 0x2b then field[1..] else field, 16);
  }

  function HexDigit(d: nat): Byte
    requires d < 16
  {
    if d < 10 then 0x30 + d else 0x41 + (d - 10)
  }

  /** A number in `count` hexadecimal digits, the highest first. */
  function Hex(v: nat, count: nat): (bytes: seq<Byte>)
    ensures |bytes| == count
  {
    if count == 0 then [] else Hex(v / 16, count - 1) + [HexDigit(v % 16)]
  }

  lemma {:induction false} HexDigits(v: nat, count: nat)
    requires v < Power(16, count)
    ensures Digits(Hex(v, count), 16) == Some(v)
    ensures forall k | 0 <= k < count :: Hex(v, count)[k] != 0x2b
  {
    if count > 0 {
      assert v / 16 < Power(16, count - 1);
      HexDigits(v / 16, count - 1);
      assert Hex(v, count)[..count - 1] == Hex(v / 16, count - 1);
    }
  }

  const FIELD_LIMIT: nat := 0x1_0000_0000

  lemma HexParses(v: nat)
    requires v < FIELD_LIMIT
    ensures ParseRadix(Hex(v, 8), 16) == Some(v)
  {
    assert Power(16, 4) == 0x1_0000;
    assert Power(16, 8) == FIELD_LIMIT;
    HexDigits(v, 8);
  }

  // UTF-8.

  predicate Between(b: Byte, low: nat, high: nat) {
    low <= b <= high
  }

  predicate Continues(bytes: seq<Byte>, k: nat) {
    k < |bytes| && Between(bytes[k], 0x80, 0xbf)
  }

  /** The length of the well-formed byte sequence at the start, or 0 (The Unicode Standard, table 3-7). */
  function SequenceLength(bytes: seq<Byte>): nat
    requires bytes != []
  {
    var b, c := bytes[0], if |bytes| > 1 then bytes[1] else 0;
    if b < 0x80 then 1
    else if Between(b, 0xc2, 0xdf) && Continues(bytes, 1) then 2
    else if Continues(bytes, 1) && Continues(bytes, 2) &&
            (if b == 0xe0 then c >= 0xa0 else if b == 0xed then c <= 0x9f else Between(b, 0xe1, 0xef)) then 3
    else if Continues(bytes, 1) && Continues(bytes, 2) && Continues(bytes, 3) &&
            (if b == 0xf0 then c >= 0x90 else if b == 0xf4 then c <= 0x8f else Between(b, 0xf1, 0xf3)) then 4
    else 0
  }

  predicate Utf8(bytes: seq<Byte>)
    decreases |bytes|
  {
    bytes == [] ||
    (var n := SequenceLength(bytes); 0 < n <= |bytes| && Utf8(bytes[n..]))
  }

  /** A Unicode scalar value: a code point that is no surrogate. */
  predicate Scalar(c: nat) {
    c < 0xd800 || 0xe000 <= c < 0x11_0000
  }

  /** The UTF-8 encoding form (RFC 3629, section 3). */
  function EncodeScalar(c: nat): (bytes: seq<Byte>)
    requires Scalar(c)
    ensures 1 <= |bytes| <= 4
  {
    if c < 0x80 then [c]
    else if c < 0x800 then [0xc0 + c / 64, 0x80 + c % 64]
    else if c < 0x1_0000 then [0xe0 + c / 4096, 0x80 + c / 64 % 64, 0x80 + c % 64]
    else [0xf0 + c / 26_2144, 0x80 + c / 4096 % 64, 0x80 + c / 64 % 64, 0x80 + c % 64]
  }

  function Encode(text: seq<nat>): seq<Byte>
    requires forall c | c in text :: Scalar(c)
  {
    if text == [] then [] else EncodeScalar(text[0]) + Encode(text[1..])
  }

  lemma EncodedLength(c: nat, rest: seq<Byte>)
    requires Scalar(c)
    ensures SequenceLength(EncodeScalar(c) + rest) == |EncodeScalar(c)|
  {}

  lemma TwoBytes(b: Byte, d: Byte) returns (c: nat)
    requires Between(b, 0xc2, 0xdf) && Between(d, 0x80, 0xbf)
    ensures Scalar(c) && EncodeScalar(c) == [b, d]
  {
    var high, low: nat := b - 0xc0, d - 0x80;
    c := high * 64 + low;
    assert c / 64 == high && c % 64 == low;
  }

  lemma ThreeBytes(b: Byte, d: Byte, e: Byte) returns (c: nat)
    requires Between(b, 0xe0, 0xef) && Between(d, 0x80, 0xbf) && Between(e, 0x80, 0xbf)
    requires (b == 0xe0 ==> d >= 0xa0) && (b == 0xed ==> d <= 0x9f)
    ensures Scalar(c) && EncodeScalar(c) == [b, d, e]
  {
    var high, mid, low: nat := b - 0xe0, d - 0x80, e - 0x80;
    c := (high * 64 + mid) * 64 + low;
    assert c / 64 == high * 64 + mid && c % 64 == low && c / 4096 == high;
  }

  lemma FourBytes(b: Byte, d: Byte, e: Byte, f: Byte) returns (c: nat)
    requires Between(b, 0xf0, 0xf4) && Between(d, 0x80, 0xbf) && Between(e, 0x80, 0xbf) && Between(f, 0x80, 0xbf)
    requires (b == 0xf0 ==> d >= 0x90) && (b == 0xf4 ==> d <= 0x8f)
    ensures Scalar(c) && EncodeScalar(c) == [b, d, e, f]
  {
    var high, mid, next, low: nat := b - 0xf0, d - 0x80, e - 0x80, f - 0x80;
    c := ((high * 64 + mid) * 64 + next) * 64 + low;
    assert c / 64 == (high * 64 + mid) * 64 + next && c % 64 == low;
    assert c / 4096 == high * 64 + mid && c / 26_2144 == high;
  }

  lemma FirstScalar(bytes: seq<Byte>) returns (c: nat)
    requires bytes != [] && SequenceLength(bytes) > 0
    ensures SequenceLength(bytes) <= |bytes| && Scalar(c) && EncodeScalar(c) == bytes[..SequenceLength(bytes)]
  {
    hide EncodeScalar;
    match SequenceLength(bytes) {
      case 1 => c := OneByte(bytes[0]);
      case 2 => c := TwoBytes(bytes[0], bytes[1]);
      case 3 => c := ThreeBytes(bytes[0], bytes[1], bytes[2]);
      case _ => c := FourBytes(bytes[0], bytes[1], bytes[2], bytes[3]);
    }
  }

  lemma OneByte(b: Byte) returns (c: nat)
    requires b < 0x80
    ensures Scalar(c) && EncodeScalar(c) == [b]
  {
    c := b;
  }

  /** The test accepts exactly the encodings of Unicode text. */
  lemma {:induction false} EncodeIsUtf8(text: seq<nat>)
    requires forall c | c in text :: Scalar(c)
    ensures Utf8(Encode(text))
  {
    hide SequenceLength, EncodeScalar;
    if text != [] {
      EncodedLength(text[0], Encode(text[1..]));
      EncodeIsUtf8(text[1..]);
      assert Encode(text)[|EncodeScalar(text[0])|..] == Encode(text[1..]);
    }
  }

  lemma {:induction false} Utf8IsEncoded(bytes: seq<Byte>) returns (text: seq<nat>)
    requires Utf8(bytes)
    ensures (forall c | c in text :: Scalar(c)) && Encode(text) == bytes
    decreases |bytes|
  {
    hide SequenceLength, EncodeScalar;
    text := [];
    if bytes != [] {
      var n := SequenceLength(bytes);
      var c := FirstScalar(bytes);
      var rest := Utf8IsEncoded(bytes[n..]);
      text := [c] + rest;
      assert bytes == bytes[..n] + bytes[n..];
    }
  }

  // The reader.

  datatype Info = NoHeader | BadMagic | Info(fileSize: nat, nameSize: nat)

  datatype ReadOutcome = Found(bytes: seq<Byte>) | NotFound | Panic

  function FieldAt(data: seq<Byte>, k: nat): Option<nat>
    requires |data| >= HEADER && k < FIELDS
  {
    ParseRadix(data[6 + 8 * k..14 + 8 * k], 16)
  }

  /** `CPIOInfo::parse`, the Newc arm; a magic number other than 0o070701 is a failed assertion. */
  function ParseInfo(data: seq<Byte>): Info {
    if |data| < HEADER then NoHeader
    else
      var magic := ParseRadix(data[0..6], 8);
      if magic.None? then NoHeader
      else if magic.value != MAGIC then BadMagic
      else if exists k: nat :: k < FIELDS && FieldAt(data, k).None? then NoHeader
      else Info(FieldAt(data, FILE_SIZE).value, FieldAt(data, NAME_SIZE).value)
  }

  function PadTo4(length: nat): (p: nat)
    ensures p < 4 && (length + p) % 4 == 0
  {
    match length % 4
    case 0 => 0
    case x => 4 - x
  }

  predicate Matches(name: seq<Byte>, path: seq<Byte>) {
    if |name| >= 2 && name[0] == 0x2e && name[1] == 0x2f then name[2..] == path else name == path
  }

  /** Where the data of the first entry starts. */
  function BodyStart(info: Info): nat
    requires info.Info?
  {
    HEADER + info.nameSize + PadTo4(HEADER + info.nameSize)
  }

  function EntryEnd(info: Info): nat
    requires info.Info?
  {
    BodyStart(info) + info.fileSize + PadTo4(info.fileSize)
  }

  /** What `read_file` yields on an archive. */
  function Read(data: seq<Byte>, path: seq<Byte>): ReadOutcome
    decreases |data|
  {
    match ParseInfo(data)
    case NoHeader => NotFound
    case BadMagic => Panic
    case Info(fileSize, nameSize) =>
      var info := Info(fileSize, nameSize);
      if nameSize == 0 || HEADER + nameSize > |data| || !Utf8(data[HEADER..HEADER + nameSize - 1]) then Panic
      else
        var name, body := data[HEADER..HEADER + nameSize - 1], BodyStart(info);
        if Matches(name, path) then
          if body + fileSize > |data| then Panic else Found(data[body..body + fileSize])
        else if name == TRAILER then NotFound
        else if EntryEnd(info) > |data| then Panic
        else Read(data[EntryEnd(info)..], path)
  }

  class CPIO {
    const data: seq<Byte>

    constructor (data: seq<Byte>)
      ensures this.data == data
    {
      this.data := data;
    }

    /** `CPIOInfo::parse` on the rest of the archive, field by field. */
    method ParseAt(start: nat) returns (info: Info)
      requires start <= |data|
      ensures info == ParseInfo(data[start..])
    {
      var bytes := data[start..];
      if |bytes| < HEADER { return NoHeader; }
      var magic := ParseRadix(bytes[0..6], 8);
      if magic.None? { return NoHeader; }
      if magic.value != MAGIC { return BadMagic; }
      var fileSize, nameSize := 0, 0;
      for k := 0 to FIELDS
        invariant forall j: nat | j < k :: FieldAt(bytes, j).Some?
        invariant k > FILE_SIZE ==> fileSize == FieldAt(bytes, FILE_SIZE).value
        invariant k > NAME_SIZE ==> nameSize == FieldAt(bytes, NAME_SIZE).value
      {
        var value := ParseRadix(bytes[6 + 8 * k..14 + 8 * k], 16);
        assert value == FieldAt(bytes, k);
        if value.None? { return NoHeader; }
        if k == FILE_SIZE { fileSize := value.value; }
        if k == NAME_SIZE { nameSize := value.value; }
      }
      return Info(fileSize, nameSize);
    }

    /** `read_file`: the start of the next entry grows until the search ends. */
    method ReadFile(path: seq<Byte>) returns (outcome: ReadOutcome)
      ensures outcome == Read(data, path)
    {
      hide ParseInfo, Utf8, Matches, Read;
      var start := 0;
      assert data[0..] == data;
      while true
        invariant start <= |data| && Read(data, path) == Read(data[start..], path)
        decreases |data| - start
      {
        ReadStep(data, start, path);
        var info := ParseAt(start);
        if info.NoHeader? { return NotFound; }
        if info.BadMagic? { return Panic; }
        start := start + HEADER;
        if info.nameSize == 0 || start + info.nameSize > |data| { return Panic; }
        var name := data[start..start + info.nameSize - 1];
        if !Utf8(name) { return Panic; }
        start := start + info.nameSize;
        start := start + PadTo4(HEADER + info.nameSize);
        if Matches(name, path) {
          if start + info.fileSize > |data| { return Panic; }
          return Found(data[start..start + info.fileSize]);
        }
        if name == TRAILER { return NotFound; }
        start := start + info.fileSize;
        start := start + PadTo4(info.fileSize);
        if start > |data| { return Panic; }
      }
    }
  }

  lemma SuffixSlice(data: seq<Byte>, start: nat, i: nat, j: nat)
    requires start <= |data| && i <= j && start + j <= |data|
    ensures data[start..][i..j] == data[start + i..start + j]
    ensures data[start..][j..] == data[start + j..]
  {}

  /** One entry, read at its place in the archive. */
  lemma ReadStep(data: seq<Byte>, start: nat, path: seq<Byte>)
    requires start <= |data|
    ensures ParseInfo(data[start..]).NoHeader? ==> Read(data[start..], path) == NotFound
    ensures ParseInfo(data[start..]).BadMagic? ==> Read(data[start..], path) == Panic
    ensures ParseInfo(data[start..]).Info? ==>
      var info := ParseInfo(data[start..]);
      var name := start + HEADER;
      Read(data[start..], path) ==
        if info.nameSize == 0 || name + info.nameSize > |data| || !Utf8(data[name..name + info.nameSize - 1]) then Panic
        else if Matches(data[name..name + info.nameSize - 1], path) then
          if start + BodyStart(info) + info.fileSize > |data| then Panic
          else Found(data[start + BodyStart(info)..start + BodyStart(info) + info.fileSize])
        else if data[name..name + info.nameSize - 1] == TRAILER then NotFound
        else if start + EntryEnd(info) > |data| then Panic
        else Read(data[start + EntryEnd(info)..], path)
  {
    hide ParseInfo, Utf8, Matches;
    var info := ParseInfo(data[start..]);
    if info.Info? {
      if info.nameSize > 0 && start + HEADER + info.nameSize <= |data| {
        SuffixSlice(data, start, HEADER, HEADER + info.nameSize - 1);
      }
      if start + BodyStart(info) + info.fileSize <= |data| {
        SuffixSlice(data, start, BodyStart(info), BodyStart(info) + info.fileSize);
      }
      if start + EntryEnd(info) <= |data| { SuffixSlice(data, start, 0, EntryEnd(info)); }
    }
  }

  // The writer.

  /** A file with the header fields that the reader skips: ino, mode, uid, gid, nlink, mtime,
      devmajor, devminor, rdevmajor, rdevminor and check. */
  datatype Entry = Entry(name: seq<Byte>, contents: seq<Byte>, rest: seq<nat>) {
    predicate Valid() {
      && Utf8(name) && |name| + 1 < FIELD_LIMIT && |contents| < FIELD_LIMIT
      && |rest| == 11 && forall k | 0 <= k < 11 :: rest[k] < FIELD_LIMIT
    }

    /** The header's fields in order. */
    function Fields(): (f: seq<nat>)
      requires Valid()
      ensures |f| == FIELDS && f[FILE_SIZE] == |contents| && f[NAME_SIZE] == |name| + 1
      ensures forall k | 0 <= k < FIELDS :: f[k] < FIELD_LIMIT
    {
      rest[0..6] + [|contents|] + rest[6..10] + [|name| + 1] + rest[10..]
    }
  }

  function HexFields(fields: seq<nat>): (bytes: seq<Byte>)
    ensures |bytes| == 8 * |fields|
  {
    if fields == [] then [] else HexFields(fields[..|fields| - 1]) + Hex(fields[|fields| - 1], 8)
  }

  lemma {:induction false} HexFieldAt(fields: seq<nat>, k: nat)
    requires k < |fields|
    ensures HexFields(fields)[8 * k..8 * k + 8] == Hex(fields[k], 8)
  {
    var n := |fields| - 1;
    var front := HexFields(fields[..n]);
    if k < n {
      HexFieldAt(fields[..n], k);
      assert HexFields(fields)[8 * k..8 * k + 8] == front[8 * k..8 * k + 8];
    } else {
      assert HexFields(fields)[8 * k..8 * k + 8] == Hex(fields[n], 8);
    }
  }

  function Padding(length: nat): seq<Byte> {
    seq(PadTo4(length), _ => 0)
  }

  function Header(e: Entry): (bytes: seq<Byte>)
    requires e.Valid()
    ensures |bytes| == HEADER
  {
    Ascii("070701") + HexFields(e.Fields())
  }

  /** The name, a zero byte, and up to three more, so that the contents start at a multiple of 4. */
  function NamePart(e: Entry): (bytes: seq<Byte>)
    ensures e.name + [0] <= bytes && |bytes| <= |e.name| + 4 && (110 + |bytes|) % 4 == 0
  {
    e.name + [0] + Padding(HEADER + |e.name| + 1)
  }

  function WriteEntry(e: Entry): (bytes: seq<Byte>)
    requires e.Valid()
    ensures |bytes| % 4 == 0 && |bytes| <= 110 + |NamePart(e)| + |e.contents| + 3
  {
    Header(e) + NamePart(e) + e.contents + Padding(|e.contents|)
  }

  function TrailerEntry(): (e: Entry)
    ensures e.name == Ascii("TRAILER!!!") && e.contents == []
  {
    Entry(Ascii("TRAILER!!!"), [], seq(11, _ => 0))
  }

  lemma TrailerIsValid()
    ensures TrailerEntry().Valid()
  {
    hide Utf8;
    AsciiIsUtf8(Ascii("TRAILER!!!"));
  }

  lemma {:induction false} AsciiIsUtf8(bytes: seq<Byte>)
    requires forall k | 0 <= k < |bytes| :: bytes[k] < 0x80
    ensures Utf8(bytes)
  {
    if bytes != [] { AsciiIsUtf8(bytes[1..]); }
  }

  function Archive(es: seq<Entry>): seq<Byte>
    requires forall e | e in es :: e.Valid()
  {
    TrailerIsValid();
    if es == [] then WriteEntry(TrailerEntry()) else WriteEntry(es[0]) + Archive(es[1..])
  }

  /** The contents of the first entry whose name is the path, or the path behind a "./" if the path
      itself has none, looking no further than an entry with the trailer's name. */
  function Lookup(es: seq<Entry>, path: seq<Byte>): Option<seq<Byte>> {
    if es == [] then None
    else if es[0].name == Ascii("./") + path || (es[0].name == path && !(Ascii("./") <= path)) then Some(es[0].contents)
    else if es[0].name == Ascii("TRAILER!!!") then None
    else Lookup(es[1..], path)
  }

  /** The reader skips one "./" in front of a name. */
  lemma MatchesIff(name: seq<Byte>, path: seq<Byte>)
    ensures Matches(name, path) <==> name == Ascii("./") + path || (name == path && !(Ascii("./") <= path))
  {
    if Ascii("./") <= name { assert name == name[..2] + name[2..]; }
  }

  lemma TrailerName()
    ensures Ascii("TRAILER!!!") == TRAILER
  {}

  /** The value of five octal digits. */
  lemma FiveDigits(m: seq<Byte>)
    requires |m| == 5 && forall k | 0 <= k < 5 :: DigitValue(m[k]) < 8
    ensures Digits(m, 8) == Some((((DigitValue(m[0]) * 8 + DigitValue(m[1])) * 8 + DigitValue(m[2])) * 8
                                  + DigitValue(m[3])) * 8 + DigitValue(m[4]))
  {
    hide DigitValue;
    assert m[..1][..0] == [] && m[..1][0] == m[0];
    assert Digits(m[..1], 8) == Some(DigitValue(m[0]));
    assert m[..2][..1] == m[..1] && m[..3][..2] == m[..2] && m[..4][..3] == m[..3];
    assert Digits(m[..2], 8) == Some(DigitValue(m[0]) * 8 + DigitValue(m[1]));
    assert Digits(m[..3], 8) == Some((DigitValue(m[0]) * 8 + DigitValue(m[1])) * 8 + DigitValue(m[2]));
  }

  lemma MagicParses()
    ensures ParseRadix(Ascii("070701"), 8) == Some(MAGIC) && ParseRadix(Ascii("+70701"), 8) == Some(MAGIC)
  {
    var m, plus := Ascii("070701"), Ascii("+70701");
    assert m[..5] == [0x30, 0x37, 0x30, 0x37, 0x30] && m[5] == 0x31;
    FiveDigits(m[..5]);
    assert plus[1..] == [0x37, 0x30, 0x37, 0x30, 0x31];
    FiveDigits(plus[1..]);
  }

  lemma {:induction false} SameDigits(a: seq<Byte>, b: seq<Byte>)
    requires |a| == |b| && Digits(a, 8).Some? && Digits(a, 8) == Digits(b, 8)
    ensures a == b
  {
    if a != [] {
      var n := |a| - 1;
      DivMod8(Digits(a[..n], 8).value, DigitValue(a[n]), Digits(b[..n], 8).value, DigitValue(b[n]));
      SameDigits(a[..n], b[..n]);
      assert a == a[..n] + [a[n]] && b == b[..n] + [b[n]];
    }
  }

  lemma DivMod8(q: nat, x: nat, p: nat, y: nat)
    requires x < 8 && y < 8 && q * 8 + x == p * 8 + y
    ensures q == p && x == y
  {}

  /** Two spellings of the magic number are taken. */
  lemma MagicIff(bytes: seq<Byte>)
    requires |bytes| == 6
    ensures ParseRadix(bytes, 8) == Some(MAGIC) <==> bytes == Ascii("070701") || bytes == Ascii("+70701")
  {
    hide Digits;
    MagicParses();
    if ParseRadix(bytes, 8) == Some(MAGIC) {
      if bytes[0] == 0x2b {
        SameDigits(bytes[1..], Ascii("+70701")[1..]);
        assert bytes == [bytes[0]] + bytes[1..];
        assert Ascii("+70701") == [0x2b] + Ascii("+70701")[1..];
      } else {
        SameDigits(bytes, Ascii("070701"));
      }
    }
  }

  /** A header is read if and only if it starts with the magic number and all 13 fields are numerals.
      Any other octal number is a failed assertion, and everything else ends the search. */
  lemma HeaderIff(data: seq<Byte>)
    requires |data| >= HEADER
    ensures ParseInfo(data) == BadMagic <==>
      ParseRadix(data[..6], 8).Some? && data[..6] != Ascii("070701") && data[..6] != Ascii("+70701")
    ensures ParseInfo(data).Info? <==>
      && (data[..6] == Ascii("070701") || data[..6] == Ascii("+70701"))
      && forall k: nat | k < 13 :: FieldAt(data, k).Some?
  {
    hide Digits, ParseRadix, FieldAt;
    assert data[0..6] == data[..6];
    MagicIff(data[..6]);
  }

  lemma FieldParses(e: Entry, data: seq<Byte>, k: nat)
    requires e.Valid() && Header(e) <= data && k < FIELDS
    ensures FieldAt(data, k) == Some(e.Fields()[k])
  {
    hide Digits, ParseRadix, Hex;
    HexFieldAt(e.Fields(), k);
    assert data[6 + 8 * k..14 + 8 * k] == HexFields(e.Fields())[8 * k..8 * k + 8];
    HexParses(e.Fields()[k]);
  }

  lemma HeaderParses(e: Entry, data: seq<Byte>)
    requires e.Valid() && Header(e) <= data
    ensures ParseInfo(data) == Info(|e.contents|, |e.name| + 1)
  {
    hide Digits, ParseRadix, FieldAt;
    MagicParses();
    assert data[0..6] == Ascii("070701");
    forall k: nat | k < FIELDS ensures FieldAt(data, k) == Some(e.Fields()[k]) {
      FieldParses(e, data, k);
    }
  }

  /** Where the parts of a written entry lie in an archive that starts with it. */
  lemma EntryParts(e: Entry, rest: seq<Byte>)
    requires e.Valid()
    ensures var data, info := WriteEntry(e) + rest, Info(|e.contents|, |e.name| + 1);
      && ParseInfo(data) == info
      && EntryEnd(info) == |WriteEntry(e)| <= |data| && data[EntryEnd(info)..] == rest
      && data[HEADER..HEADER + |e.name|] == e.name
      && data[BodyStart(info)..BodyStart(info) + |e.contents|] == e.contents
  {
    hide ParseInfo, Utf8;
    var data := WriteEntry(e) + rest;
    assert Header(e) <= data;
    HeaderParses(e, data);
    var tail := e.contents + Padding(|e.contents|) + rest;
    assert data == Header(e) + (e.name + ([0] + Padding(HEADER + |e.name| + 1) + tail));
    assert data == (Header(e) + NamePart(e)) + tail;
  }

  /** Where the parts lie in as much of a written entry as there is. */
  lemma CutParts(e: Entry, data: seq<Byte>)
    requires e.Valid() && data <= WriteEntry(e)
    ensures var info := Info(|e.contents|, |e.name| + 1);
      && (|data| < HEADER ==> ParseInfo(data) == NoHeader)
      && (|data| >= HEADER ==> ParseInfo(data) == info)
      && EntryEnd(info) == |WriteEntry(e)| && BodyStart(info) == HEADER + |NamePart(e)|
      && (|data| > HEADER + |e.name| ==> data[HEADER..HEADER + |e.name|] == e.name)
      && (|data| >= BodyStart(info) + |e.contents| ==>
          data[BodyStart(info)..BodyStart(info) + |e.contents|] == e.contents)
  {
    hide ParseInfo, Utf8;
    var whole := WriteEntry(e);
    EntryParts(e, []);
    assert whole + [] == whole;
    NoHeaderIn(data);
    if |data| >= HEADER {
      assert Header(e) <= data by { assert data[..HEADER] == whole[..HEADER]; }
      HeaderParses(e, data);
    }
    var info := Info(|e.contents|, |e.name| + 1);
    if |data| > HEADER + |e.name| {
      assert data[HEADER..HEADER + |e.name|] == whole[HEADER..HEADER + |e.name|];
    }
    if |data| >= BodyStart(info) + |e.contents| {
      assert data[BodyStart(info)..BodyStart(info) + |e.contents|] == whole[BodyStart(info)..BodyStart(info) + |e.contents|];
    }
  }

  lemma NoHeaderIn(data: seq<Byte>)
    ensures |data| < HEADER ==> ParseInfo(data) == NoHeader
  {}

  lemma EntryRead(e: Entry, rest: seq<Byte>, path: seq<Byte>)
    requires e.Valid()
    ensures Read(WriteEntry(e) + rest, path) ==
      if e.name == Ascii("./") + path || (e.name == path && !(Ascii("./") <= path)) then Found(e.contents)
      else if e.name == Ascii("TRAILER!!!") then NotFound
      else Read(rest, path)
  {
    hide ParseInfo, WriteEntry, Utf8, Matches;
    EntryParts(e, rest);
    MatchesIff(e.name, path);
    TrailerName();
  }

  /** An archive that breaks off: without a whole header the search ends, and otherwise reading
      panics as soon as it needs a byte that is not there. */
  lemma CutOff(e: Entry, data: seq<Byte>, path: seq<Byte>)
    requires e.Valid() && data <= WriteEntry(e)
    ensures Read(data, path) ==
      if |data| < HEADER then NotFound
      else if |data| < HEADER + |e.name| + 1 then Panic
      else if e.name == Ascii("./") + path || (e.name == path && !(Ascii("./") <= path)) then
        if |data| < HEADER + |NamePart(e)| + |e.contents| then Panic else Found(e.contents)
      else if e.name == Ascii("TRAILER!!!") || |data| == |WriteEntry(e)| then NotFound
      else Panic
  {
    hide ParseInfo, WriteEntry, Utf8, Matches, Ascii;
    MatchesIff(e.name, path);
    TrailerName();
    CutParts(e, data);
    NoHeaderIn([]);
    if |data| >= HEADER + |e.name| + 1 { assert data[HEADER..HEADER + |e.name| + 1 - 1] == e.name; }
  }

  /** The reader inverts the writer, whatever follows the archive: it finds the first entry that
      matches, or nothing; only asked for the trailer's name does it hit the trailer itself. */
  lemma {:induction false} RoundTrip(es: seq<Entry>, path: seq<Byte>, rest: seq<Byte>)
    requires forall e | e in es :: e.Valid()
    ensures Lookup(es, path).Some? ==> Read(Archive(es) + rest, path) == Found(Lookup(es, path).value)
    ensures Lookup(es, path).None? && path != Ascii("TRAILER!!!") ==> Read(Archive(es) + rest, path) == NotFound
    ensures Lookup(es, path).None? && path == Ascii("TRAILER!!!") ==> Read(Archive(es) + rest, path) == Found([])
    decreases |es|
  {
    hide Read, WriteEntry;
    if es == [] {
      TrailerIsValid();
      EntryRead(TrailerEntry(), rest, path);
    } else {
      assert Archive(es) + rest == WriteEntry(es[0]) + (Archive(es[1..]) + rest);
      EntryRead(es[0], Archive(es[1..]) + rest, path);
      RoundTrip(es[1..], path, rest);
    }
  }
}
