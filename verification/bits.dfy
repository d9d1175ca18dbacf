/** Unsigned machine words and the bitwise operations the loader applies to them.

    C's `unsigned char`, `unsigned short` and `unsigned int` are modelled as bounded
    integers. Bitwise AND is defined bit by bit on naturals, and the lemmas below tie the
    particular masks the loader uses (`& 0xfff`, `& 0xfffff000`, `& 4`, `& 0xF`) to their
    arithmetic meaning. Right shift by `n` is division by `2^n`, and unsigned 32-bit
    addition wraps modulo `2^32`.
 */
module Bits {

  type u8 = x: int | 0 <= x < 0x100
  type u16 = x: int | 0 <= x < 0x1_0000
  type u32 = x: int | 0 <= x < 0x1_0000_0000

  const WORD_MODULUS: int := 0x1_0000_0000

  function Pow(b: nat, k: nat): (r: nat)
    ensures b > 0 ==> r > 0
  {
    if k == 0 then 1 else b * Pow(b, k - 1)
  }

  /** Unsigned 32-bit addition, as C's `unsigned int` `+`. */
  function AddU32(a: u32, b: u32): (r: u32)
    ensures a + b < WORD_MODULUS ==> r == a + b
    ensures a + b >= WORD_MODULUS ==> r == a + b - WORD_MODULUS
  {
    (a + b) % WORD_MODULUS
  }

  /** C's `&` on unsigned values, one bit at a time from the least significant. */
  function BitAnd(x: nat, y: nat): (r: nat)
    ensures r <= x && r <= y
    decreases x
  {
    if x == 0 || y == 0 then 0
    else 2 * BitAnd(x / 2, y / 2) + (if x % 2 == 1 && y % 2 == 1 then 1 else 0)
  }

  /** `&` does not depend on the order of its operands. */
  lemma {:induction false} BitAndCommutes(x: nat, y: nat)
    ensures BitAnd(x, y) == BitAnd(y, x)
    decreases x
  {
    if x > 0 && y > 0 {
      BitAndCommutes(x / 2, y / 2);
    }
  }

  // ---------------------------------------------------------------------------
  // Division facts the mask lemmas need

  lemma MulStep(d: int, k: int)
    requires d > 0
    ensures k >= 1 ==> d * k >= d
    ensures k <= -1 ==> d * k <= -d
  {
    assert d * k == d * (k - 1) + d;
    assert d * k == d * (k + 1) - d;
  }

  lemma DivUnique(x: int, d: int, q: int, r: int)
    requires d > 0 && 0 <= r < d && x == d * q + r
    ensures x / d == q && x % d == r
  {
    var q' := x / d;
    var r' := x % d;
    assert x == d * q' + r';
    assert d * (q - q') == d * q - d * q';
    MulStep(d, q - q');
  }

  lemma MulRegroup(a: int, b: int, q: int, s: int, r: int)
    ensures a * (b * q + s) + r == (a * b) * q + (a * s + r)
  {
  }

  lemma MulBound(a: nat, s: nat, b: nat)
    requires s < b
    ensures a * s + a <= a * b
  {
    assert a * b == a * s + a * (b - s);
    if a > 0 {
      MulStep(a, b - s);
    }
  }

  lemma DivDiv(x: nat, a: nat, b: nat)
    requires a > 0 && b > 0
    ensures x / (a * b) == (x / a) / b
  {
    var q := x / a;
    var r := x % a;
    var q2 := q / b;
    var r2 := q % b;
    assert x == a * q + r;
    assert q == b * q2 + r2;
    MulRegroup(a, b, q2, r2, r);
    MulBound(a, r2, b);
    DivUnique(x, a * b, q2, a * r2 + r);
  }

  /** Splitting off the lowest digit in base `b`: the remainder modulo `b * m`. */
  lemma ModSplit(x: nat, b: nat, m: nat)
    requires b > 0 && m > 0
    ensures x % (b * m) == b * ((x / b) % m) + x % b
  {
    var q := x / b;
    var r := x % b;
    var q2 := q / m;
    var r2 := q % m;
    assert x == b * q + r;
    assert q == m * q2 + r2;
    MulRegroup(b, m, q2, r2, r);
    MulBound(b, r2, m);
    DivUnique(x, b * m, q2, b * r2 + r);
  }

  // ---------------------------------------------------------------------------
  // The masks

  /** `x & (2^k - 1)` keeps the low `k` bits: it is `x mod 2^k`. */
  lemma {:induction false} LowMask(x: nat, k: nat)
    ensures BitAnd(x, Pow(2, k) - 1) == x % Pow(2, k)
  {
    if k == 0 {
    } else if x == 0 {
    } else {
      var m := Pow(2, k - 1);
      assert (Pow(2, k) - 1) / 2 == m - 1;
      assert (Pow(2, k) - 1) % 2 == 1;
      LowMask(x / 2, k - 1);
      ModSplit(x, 2, m);
    }
  }

  /** For `x < 2^n`, `x & (2^n - 2^k)` clears the low `k` bits. */
  lemma {:induction false} PowMonotone(b: nat, k: nat, n: nat)
    requires b > 0 && k <= n
    ensures Pow(b, k) <= Pow(b, n)
  {
    if k < n {
      PowMonotone(b, k, n - 1);
    }
  }

  lemma HighMask(x: nat, n: nat, k: nat)
    requires k <= n && x < Pow(2, n)
    ensures Pow(2, k) <= Pow(2, n)
    ensures BitAnd(x, Pow(2, n) - Pow(2, k)) == x - x % Pow(2, k)
  {
    PowMonotone(2, k, n);
    HighMaskClears(x, n, k, Pow(2, n) - Pow(2, k));
    ClearLowMod(x, k);
  }

  /** `x` with its `k` lowest bits cleared, one bit at a time. */
  function ClearLow(x: nat, k: nat): nat
  {
    if k == 0 || x == 0 then x else 2 * ClearLow(x / 2, k - 1)
  }

  lemma {:induction false} HighMaskClears(x: nat, n: nat, k: nat, mask: nat)
    requires k <= n && x < Pow(2, n) && mask == Pow(2, n) - Pow(2, k)
    ensures BitAnd(x, mask) == ClearLow(x, k)
  {
    if k == 0 {
      LowMask(x, n);
      DivUnique(x, Pow(2, n), 0, x);
    } else if x > 0 {
      var half := Pow(2, n - 1) - Pow(2, k - 1);
      PowHalves(n, k);
      HighMaskClears(x / 2, n - 1, k - 1, half);
      HalveMask(x, half, mask);
    }
  }

  lemma PowHalves(n: nat, k: nat)
    requires 0 < k <= n
    ensures Pow(2, n) == 2 * Pow(2, n - 1) && Pow(2, k) == 2 * Pow(2, k - 1)
    ensures Pow(2, k - 1) <= Pow(2, n - 1)
  {
    PowMonotone(2, k - 1, n - 1);
  }

  /** An even mask drops the lowest bit of `x` and halves. */
  lemma HalveMask(x: nat, half: nat, mask: nat)
    requires x > 0 && mask == 2 * half
    ensures BitAnd(x, mask) == 2 * BitAnd(x / 2, half)
  {
    if half > 0 {
      DivUnique(mask, 2, half, 0);
    }
  }

  /** Clearing the `k` lowest bits subtracts the remainder modulo `2^k`. */
  lemma {:induction false} ClearLowMod(x: nat, k: nat)
    ensures ClearLow(x, k) == x - x % Pow(2, k)
  {
    if k == 0 {
      assert x % 1 == 0;
    } else if x == 0 {
    } else {
      ClearLowMod(x / 2, k - 1);
      HalveModulus(x, Pow(2, k - 1), Pow(2, k));
    }
  }

  lemma HalveModulus(x: nat, half: nat, modulus: nat)
    requires half > 0 && modulus == 2 * half
    ensures x % modulus == 2 * ((x / 2) % half) + x % 2
  {
    ModSplit(x, 2, half);
  }

  /** `x & 2^k` is non-zero exactly when bit `k` of `x` is set. */
  lemma {:induction false} SingleBit(x: nat, k: nat)
    ensures BitAnd(x, Pow(2, k)) != 0 <==> (x / Pow(2, k)) % 2 == 1
  {
    if k == 0 {
    } else if x == 0 {
    } else {
      assert Pow(2, k) / 2 == Pow(2, k - 1);
      assert Pow(2, k) % 2 == 0;
      SingleBit(x / 2, k - 1);
      DivDiv(x, 2, Pow(2, k - 1));
    }
  }

  // ---------------------------------------------------------------------------
  // The concrete masks of the loader

  const PAGE_SIZE: nat := 0x1000
  const PAGE_MASK: nat := 0xfffff000
  const OFFSET_MASK: nat := 0xfff

  lemma PowValues()
    ensures Pow(2, 0) == 1 && Pow(2, 1) == 2 && Pow(2, 2) == 4
    ensures Pow(2, 4) == 16 && Pow(2, 12) == PAGE_SIZE
    ensures Pow(2, 32) == WORD_MODULUS
    ensures Pow(16, 8) == WORD_MODULUS
  {
    assert Pow(2, 8) == 256;
    assert Pow(2, 16) == 0x1_0000;
    assert Pow(2, 24) == 0x100_0000;
  }

  /** `v & 0xfffff000`: `v` rounded down to a page boundary. */
  function PageAlign(v: u32): (r: u32)
    ensures r % PAGE_SIZE == 0
    ensures r <= v < r + PAGE_SIZE
    ensures r == v - v % PAGE_SIZE
  {
    PageMask(v);
    BitAnd(v, PAGE_MASK)
  }

  lemma PageMask(v: u32)
    ensures BitAnd(v, PAGE_MASK) == v - v % PAGE_SIZE
  {
    PowValues();
    HighMask(v, 32, 12);
  }

  /** `v & 0xfff`: the offset of `v` inside its page. */
  function PageOffset(v: u32): (r: u32)
    ensures r == v % PAGE_SIZE
  {
    OffsetMask(v);
    BitAnd(v, OFFSET_MASK)
  }

  lemma OffsetMask(v: u32)
    ensures BitAnd(v, OFFSET_MASK) == v % PAGE_SIZE
  {
    PowValues();
    LowMask(v, 12);
  }

  /** `v & 0xF`: the lowest hexadecimal digit of `v`. */
  function LowNibble(v: u32): (r: nat)
    ensures r == v % 16 && r < 16
  {
    NibbleMask(v);
    BitAnd(v, 0xF)
  }

  lemma NibbleMask(v: u32)
    ensures BitAnd(v, 0xF) == v % 16
  {
    PowValues();
    LowMask(v, 4);
  }

  /** `(v & mask) != 0` for one of the single-bit masks 1, 2 and 4. */
  predicate FlagSet(v: u32, mask: nat)
    requires mask == 1 || mask == 2 || mask == 4
  {
    BitAnd(v, mask) != 0
  }

  lemma FlagSetMeaning(v: u32, mask: nat)
    requires mask == 1 || mask == 2 || mask == 4
    ensures FlagSet(v, mask) <==> (v / mask) % 2 == 1
  {
    PowValues();
    if mask == 1 {
      SingleBit(v, 0);
    } else if mask == 2 {
      SingleBit(v, 1);
    } else {
      SingleBit(v, 2);
    }
  }
}
