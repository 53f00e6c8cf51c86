/** Bitwise operations of the source's unsigned words, on natural numbers.
    The kernel only masks with runs of ones and only ORs words whose set bits do not
    meet; the lemmas turn those cases into division and remainder. */
module Bits {

  const WORD_LIMIT: nat := 0x1_0000_0000_0000_0000

  function Pow2(k: nat): (p: nat)
    ensures p > 0
  {
    if k == 0 then 1 else 2 * Pow2(k - 1)
  }

  function And(x: nat, y: nat): nat
    decreases x
  {
    if x == 0 || y == 0 then 0
    else 2 * And(x / 2, y / 2) + (if x % 2 == 1 && y % 2 == 1 then 1 else 0)
  }

  function Or(x: nat, y: nat): nat
    decreases x + y
  {
    if x == 0 then y
    else if y == 0 then x
    else 2 * Or(x / 2, y / 2) + (if x % 2 == 1 || y % 2 == 1 then 1 else 0)
  }

  function Shl(x: nat, k: nat): nat
    decreases k
  {
    if k == 0 then x else 2 * Shl(x, k - 1)
  }

  function Shr(x: nat, k: nat): nat
    decreases k
  {
    if k == 0 then x else Shr(x / 2, k - 1)
  }

  /** `!x` on a 64-bit word. */
  function Not64(x: nat): nat
    requires x < WORD_LIMIT
  {
    WORD_LIMIT - 1 - x
  }

  lemma Distribute(a: int, b: int, d: int)
    ensures (b - a) * d == b * d - a * d
  {}

  lemma {:induction false} MulAtLeast(k: nat, d: nat)
    ensures k * d >= 0
    ensures k > 0 ==> k * d >= d
  {
    if k > 0 {
      MulAtLeast(k - 1, d);
      Distribute(1, k, d);
    }
  }

  lemma MulGap(a: int, b: int, d: nat)
    ensures a < b ==> a * d + d <= b * d
    ensures a <= b ==> a * d <= b * d
  {
    Distribute(a, b, d);
    if a <= b { MulAtLeast(b - a, d); }
  }

  lemma DivModUnique(v: int, d: int, q: int, r: int)
    requires d > 0 && v == q * d + r && 0 <= r < d
    ensures v / d == q && v % d == r
  {
    assert v == (v / d) * d + v % d;
    MulGap(v / d, q, d);
    MulGap(q, v / d, d);
  }

  lemma DivTwice(v: nat, p: nat)
    requires p > 0
    ensures v / (2 * p) == v / 2 / p
    ensures v % (2 * p) == 2 * (v / 2 % p) + v % 2
  {
    var q, r := v / 2 / p, v / 2 % p;
    assert v == 2 * (v / 2) + v % 2;
    assert v / 2 == q * p + r;
    assert v == q * (2 * p) + (2 * r + v % 2);
    DivModUnique(v, 2 * p, q, 2 * r + v % 2);
  }

  /** Masking with `k` low ones keeps the remainder modulo 2^k. */
  lemma {:induction false} AndLow(v: nat, k: nat)
    ensures And(v, Pow2(k) - 1) == v % Pow2(k)
    decreases k
  {
    if k > 0 {
      AndLow(v / 2, k - 1);
      AndLowStep(v, Pow2(k - 1));
    }
  }

  lemma AndLowStep(v: nat, p: nat)
    requires p > 0 && And(v / 2, p - 1) == v / 2 % p
    ensures And(v, 2 * p - 1) == v % (2 * p)
  {
    hide And;
    DivTwice(v, p);
    AndOdd(v, p - 1);
    assert 2 * (p - 1) + 1 == 2 * p - 1;
  }

  lemma AndOdd(v: nat, m: nat)
    ensures And(v, 2 * m + 1) == 2 * And(v / 2, m) + v % 2
  {
    assert (2 * m + 1) / 2 == m && (2 * m + 1) % 2 == 1;
  }

  // Quotients and remainders of quotients.

  lemma DivDiv(v: nat, a: nat, b: nat)
    requires a > 0 && b > 0
    ensures a * b > 0 && v / (a * b) == v / a / b
  {
    var q, r, s := v / a / b, v / a % b, v % a;
    assert v == v / a * a + s && v / a == q * b + r;
    assert v == (q * b + r) * a + s == q * (a * b) + (r * a + s);
    MulGap(r, b, a);
    MulGap(0, b, a);
    DivModUnique(v, a * b, q, r * a + s);
  }

  lemma DivOfMod(v: nat, a: nat, m: nat)
    requires a > 0 && m > 0
    ensures a * m > 0 && v % (a * m) / a == v / a % m
  {
    DivDiv(v, a, m);
    var q, k, s := v / a / m, v / a % m, v % a;
    assert v == v / a * a + s && v / a == q * m + k;
    assert v == (q * m + k) * a + s == q * (a * m) + (k * a + s);
    MulGap(k, m, a);
    DivModUnique(v, a * m, q, k * a + s);
    DivModUnique(k * a + s, a, k, s);
  }

  lemma ModOfMod(v: nat, a: nat, m: nat)
    requires a > 0 && m > 0
    ensures a * m > 0 && v % (a * m) % a == v % a
  {
    DivDiv(v, a, m);
    var q, k, s := v / a / m, v / a % m, v % a;
    assert v == v / a * a + s && v / a == q * m + k;
    assert v == (q * m + k) * a + s == q * (a * m) + (k * a + s);
    MulGap(k, m, a);
    DivModUnique(v, a * m, q, k * a + s);
    DivModUnique(k * a + s, a, k, s);
  }

  /** A mask shifted left by `k` looks only at the bits from `k` up. */
  lemma {:induction false} AndShift(v: nat, m: nat, k: nat)
    ensures And(v, Shl(m, k)) == Shl(And(Shr(v, k), m), k)
    decreases k
  {
    if k > 0 {
      AndShift(v / 2, m, k - 1);
      assert Shl(m, k) / 2 == Shl(m, k - 1);
    }
  }

  lemma {:induction false} ShlIsTimes(m: nat, k: nat)
    ensures Shl(m, k) == m * Pow2(k)
    decreases k
  {
    if k > 0 {
      ShlIsTimes(m, k - 1);
      Reassociate(m, Pow2(k - 1));
    }
  }

  lemma {:induction false} ShrIsDiv(v: nat, k: nat)
    ensures Shr(v, k) == v / Pow2(k)
    decreases k
  {
    if k > 0 {
      ShrIsDiv(v / 2, k - 1);
      DivTwice(v, Pow2(k - 1));
    }
  }

  lemma Reassociate(a: nat, b: nat)
    ensures a * (2 * b) == 2 * (a * b)
  {}

  lemma Commute(a: nat, b: nat)
    ensures a * b == b * a
  {}

  /** ORing a value below 2^k into a word whose low `k` bits are clear adds it. */
  lemma {:induction false} OrDisjoint(a: nat, b: nat, k: nat)
    requires b < Pow2(k)
    ensures Or(a * Pow2(k), b) == a * Pow2(k) + b
    decreases k
  {
    if k > 0 {
      var p := Pow2(k - 1);
      Reassociate(a, p);
      OrDisjoint(a, b / 2, k - 1);
      OrEven(a * p, b);
    }
  }

  lemma OrEven(x: nat, b: nat)
    requires Or(x, b / 2) == x + b / 2
    ensures Or(2 * x, b) == 2 * x + b
  {
    assert 2 * x / 2 == x && 2 * x % 2 == 0;
  }

  lemma {:induction false} Pow2Add(a: nat, b: nat)
    ensures Pow2(a + b) == Pow2(a) * Pow2(b)
    decreases a
  {
    if a > 0 {
      Pow2Add(a - 1, b);
      Reassociate(Pow2(b), Pow2(a - 1));
      Commute(Pow2(b), Pow2(a));
      Commute(Pow2(b), Pow2(a - 1));
    }
  }

  lemma SmallPow2()
    ensures Pow2(1) == 2 && Pow2(4) == 16
  {
    assert Pow2(2) == 4;
  }

  lemma Pow2Values()
    ensures Pow2(9) == 512 && Pow2(12) == 0x1000 && Pow2(40) == 0x100_0000_0000
    ensures Pow2(64) == WORD_LIMIT
  {
    hide Pow2;
    SmallPow2();
    Pow2Add(4, 4);
    Pow2Add(8, 1);
    Pow2Add(8, 4);
    Pow2Add(12, 12);
    Pow2Add(24, 12);
    Pow2Add(36, 4);
    Pow2Add(40, 12);
    Pow2Add(52, 12);
  }

  /** `align_down`: clear the bits below the alignment. */
  function AlignDown(value: nat, align: nat): nat
    requires 0 < align <= WORD_LIMIT
  {
    And(value, Not64(align - 1))
  }

  /** `align_up`. The sum wraps around at 2^64. */
  function AlignUp(value: nat, align: nat): nat
    requires 0 < align <= WORD_LIMIT
  {
    And((value + align - 1) % WORD_LIMIT, Not64(align - 1))
  }

  ghost predicate IsAlignment(align: nat) {
    exists k: nat :: k < 64 && align == Pow2(k)
  }

  /** `!(2^k - 1)` is a run of ones shifted left by `k`. */
  lemma Not64IsShift(k: nat)
    requires k < 64
    ensures Pow2(k) <= WORD_LIMIT && Pow2(64 - k) * Pow2(k) == WORD_LIMIT
    ensures Not64(Pow2(k) - 1) == Shl(Pow2(64 - k) - 1, k)
  {
    var p, n := Pow2(k), Pow2(64 - k);
    Pow2Add(64 - k, k);
    Pow2Values();
    MulGap(1, n, p);
    Distribute(1, n, p);
    ShlIsTimes(n - 1, k);
  }

  lemma AlignDownIsMultiple(value: nat, k: nat)
    requires value < WORD_LIMIT && k < 64
    ensures Pow2(k) <= WORD_LIMIT
    ensures AlignDown(value, Pow2(k)) == value / Pow2(k) * Pow2(k)
  {
    var n := Pow2(64 - k);
    Not64IsShift(k);
    AndShift(value, n - 1, k);
    ShrIsDiv(value, k);
    AndLow(value / Pow2(k), 64 - k);
    QuotientBelow(value, Pow2(k), n);
    DivModUnique(value / Pow2(k), n, 0, value / Pow2(k));
    ShlIsTimes(value / Pow2(k), k);
  }

  lemma QuotientBelow(v: nat, d: nat, n: nat)
    requires d > 0 && v < n * d
    ensures v / d < n
  {
    assert v == (v / d) * d + v % d;
    MulGap(n, v / d, d);
  }

  lemma RoundUpIsLeast(value: nat, align: nat, up: nat)
    requires align > 0 && up == (value + align - 1) / align * align
    ensures up % align == 0 && value <= up < value + align
    ensures forall m: nat :: m % align == 0 && value <= m ==> up <= m
  {
    var s := value + align - 1;
    var q := s / align;
    assert s == q * align + s % align;
    DivModUnique(up, align, q, 0);
    forall m: nat | m % align == 0 && value <= m
      ensures up <= m
    {
      assert m == (m / align) * align;
      MulGap(m / align, q, align);
      MulGap(q, m / align, align);
    }
  }

  /** For every power of two, `align_up` is the least multiple at or above its argument. */
  lemma AlignUpIsLeast(value: nat, align: nat)
    requires IsAlignment(align) && value + align <= WORD_LIMIT
    ensures 0 < align <= WORD_LIMIT
    ensures AlignUp(value, align) % align == 0
    ensures value <= AlignUp(value, align) < value + align
    ensures forall m: nat :: m % align == 0 && value <= m ==> AlignUp(value, align) <= m
  {
    hide And, Not64, Pow2;
    var k: nat :| k < 64 && align == Pow2(k);
    DivModUnique(value + align - 1, WORD_LIMIT, 0, value + align - 1);
    AlignDownIsMultiple(value + align - 1, k);
    RoundUpIsLeast(value, align, AlignUp(value, align));
  }

  lemma PowerBelow(k: nat)
    requires k < 64
    ensures 2 * Pow2(k) <= WORD_LIMIT
    decreases 64 - k
  {
    if k < 63 { PowerBelow(k + 1); } else { Pow2Values(); }
  }

  /** A multiple of a power of two lies at least that far below 2^64. */
  lemma AlignedHasRoom(value: nat, align: nat)
    requires IsAlignment(align) && value < WORD_LIMIT
    ensures align > 0 && (value % align == 0 ==> value + align <= WORD_LIMIT)
  {
    hide Pow2, And, Or, Not64, Shl;
    var k: nat :| k < 64 && align == Pow2(k);
    Not64IsShift(k);
    MultipleBelow(value, align, Pow2(64 - k));
  }

  lemma MultipleBelow(value: nat, d: nat, n: nat)
    requires n * d == WORD_LIMIT && value < WORD_LIMIT
    ensures d > 0 && (value % d == 0 ==> value + d <= WORD_LIMIT)
  {
    if d > 0 {
      QuotientBelow(value, d, n);
      MulGap(value / d, n, d);
    }
  }

  /** `align_up` goes up unless the sum overflows; then it yields 0. */
  lemma AlignUpOverflows(value: nat, align: nat)
    requires IsAlignment(align) && value < WORD_LIMIT
    ensures 0 < align <= WORD_LIMIT
    ensures value <= AlignUp(value, align) <==> value + align <= WORD_LIMIT
    ensures value + align > WORD_LIMIT ==> AlignUp(value, align) == 0
  {
    var k: nat :| k < 64 && align == Pow2(k);
    PowerBelow(k);
    if value + align <= WORD_LIMIT {
      AlignUpIsLeast(value, align);
    } else {
      var low := value + align - 1 - WORD_LIMIT;
      DivModUnique(value + align - 1, WORD_LIMIT, 1, low);
      AlignDownIsMultiple(low, k);
      DivModUnique(low, align, 0, low);
    }
  }
}
