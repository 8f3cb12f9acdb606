/** Unsigned fixed-width arithmetic on natural numbers.

    A C++ unsigned integer of width `w` is modelled as a `nat` below `Pow2(w)`.
    The bitwise operators `&`, `|` and `~` are defined bit by bit over the low
    `w` bits, a left shift discards the bits pushed past the width, and the
    bit scans that the aggregator takes from boost (`msb`, `lsb`) are plain
    recursive functions.  The lemmas give each operator the arithmetic meaning
    the aggregator relies on (masks, complements, the lowest set bit). */
module Bits {

  /** 2 to the power `n`. */
  function Pow2(n: nat): (p: nat)
    ensures p >= 1
  {
    if n == 0 then 1 else 2 * Pow2(n - 1)
  }

  lemma {:induction false} Pow2Add(a: nat, b: nat)
    ensures Pow2(a + b) == Pow2(a) * Pow2(b)
  {
    if a > 0 {
      Pow2Add(a - 1, b);
      assert Pow2(a + b) == 2 * Pow2(a - 1 + b);
      assert 2 * (Pow2(a - 1) * Pow2(b)) == (2 * Pow2(a - 1)) * Pow2(b);
    }
  }

  lemma {:induction false} Pow2Monotone(a: nat, b: nat)
    requires a <= b
    ensures Pow2(a) <= Pow2(b)
  {
    if a < b {
      Pow2Monotone(a, b - 1);
    }
  }

  lemma {:induction false} Pow2Exceeds(k: nat)
    ensures k < Pow2(k)
  {
    if k > 0 {
      Pow2Exceeds(k - 1);
    }
  }

  lemma Pow2StrictMonotone(a: nat, b: nat)
    requires a < b
    ensures 2 * Pow2(a) <= Pow2(b)
  {
    Pow2Monotone(a + 1, b);
  }

  // ---------------------------------------------------------------------------
  // Division and remainder

  lemma MulAtLeast(a: int, b: int)
    requires a >= 1 && b >= 0
    ensures a * b >= b
  {
    assert a * b - b == (a - 1) * b;
  }

  /** Quotient and remainder are unique. */
  lemma DivModUnique(x: int, m: int, q: int, rem: int)
    requires m > 0 && 0 <= rem < m && x == q * m + rem
    ensures x / m == q && x % m == rem
  {
    var d := q - x / m;
    assert d * m == q * m - (x / m) * m;
    assert d * m == x % m - rem;
    if d > 0 {
      MulAtLeast(d, m);
    } else if d < 0 {
      MulAtLeast(-d, m);
    }
  }

  lemma ModOfMultiple(q: nat, m: nat)
    requires m > 0
    ensures (q * m) % m == 0 && (q * m) / m == q
  {
    DivModUnique(q * m, m, q, 0);
  }

  /** The remainder modulo 2^k splits into the lowest bit and the remainder of
      the upper bits modulo 2^(k-1). */
  lemma ModPow2Split(x: nat, k: nat)
    requires k >= 1
    ensures x % Pow2(k) == 2 * ((x / 2) % Pow2(k - 1)) + x % 2
  {
    var m := Pow2(k - 1);
    var y := x / 2;
    assert x == 2 * y + x % 2;
    assert y == (y / m) * m + y % m;
    assert x == (y / m) * (2 * m) + (2 * (y % m) + x % 2);
    DivModUnique(x, 2 * m, y / m, 2 * (y % m) + x % 2);
  }

  /** Rounding `x` down to a multiple of `d`. */
  lemma RoundDown(x: nat, d: nat)
    requires d > 0
    ensures x - x % d == (x / d) * d && (x - x % d) % d == 0
  {
    ModOfMultiple(x / d, d);
  }

  /** 2^j divides 2^k for `j <= k`. */
  lemma Pow2DividesPow2(j: nat, k: nat)
    requires j <= k
    ensures Pow2(k) % Pow2(j) == 0
  {
    Pow2Add(k - j, j);
    assert k - j + j == k;
    ModOfMultiple(Pow2(k - j), Pow2(j));
  }

  /** A multiple of 2^b is a multiple of every smaller power of two. */
  lemma Pow2Divides(x: nat, a: nat, b: nat)
    requires a <= b && x % Pow2(b) == 0
    ensures x % Pow2(a) == 0
  {
    Pow2Add(b - a, a);
    var q, hi, lo := x / Pow2(b), Pow2(b - a), Pow2(a);
    assert Pow2(b) == hi * lo by { assert b - a + a == b; }
    assert x == q * Pow2(b);
    MulAssoc(q, hi, lo);
    DivModUnique(x, lo, q * hi, 0);
  }

  lemma MulAssoc(a: int, b: int, c: int)
    ensures a * (b * c) == (a * b) * c
  {
  }

  lemma MulMonotone(a: nat, b: nat, d: nat)
    requires a <= b
    ensures a * d <= b * d
  {
    assert b * d - a * d == (b - a) * d;
  }

  /** Below a common multiple `g` of `d`, the next multiple of `d` after `x`
      is at most `g`. */
  lemma NextMultiple(x: nat, g: nat, d: nat)
    requires d > 0 && x % d == 0 && g % d == 0 && x < g
    ensures x + d <= g
  {
    var qx, qg := x / d, g / d;
    assert x == qx * d;
    assert g == qg * d;
    if qg <= qx {
      MulMonotone(qg, qx, d);
      assert false;
    }
    MulMonotone(qx + 1, qg, d);
    assert (qx + 1) * d == qx * d + d;
  }

  // ---------------------------------------------------------------------------
  // Bitwise operators at width w

  /** `a & b` on the low `w` bits. */
  function And(a: nat, b: nat, w: nat): (c: nat)
    ensures c < Pow2(w)
  {
    if w == 0 then 0
    else 2 * And(a / 2, b / 2, w - 1) + (if a % 2 == 1 && b % 2 == 1 then 1 else 0)
  }

  /** `a | b` on the low `w` bits. */
  function Or(a: nat, b: nat, w: nat): (c: nat)
    ensures c < Pow2(w)
  {
    if w == 0 then 0
    else 2 * Or(a / 2, b / 2, w - 1) + (if a % 2 == 1 || b % 2 == 1 then 1 else 0)
  }

  /** `~a` on the low `w` bits. */
  function Not(a: nat, w: nat): (c: nat)
    ensures c < Pow2(w)
  {
    if w == 0 then 0 else 2 * Not(a / 2, w - 1) + (1 - a % 2)
  }

  /** `a << k` in a `w`-bit unsigned type: the bits shifted past the width are lost. */
  function Shl(a: nat, k: nat, w: nat): nat
  {
    (a * Pow2(k)) % Pow2(w)
  }

  /** `a >> k` for an unsigned type. */
  function Shr(a: nat, k: nat): nat
  {
    DivNonNegative(a, Pow2(k));
    a / Pow2(k)
  }

  lemma DivNonNegative(a: nat, d: nat)
    requires d > 0
    ensures a / d >= 0
  {
  }

  /** The complement of a `w`-bit value is its distance to the all-ones value. */
  lemma {:induction false} NotValue(a: nat, w: nat)
    requires a < Pow2(w)
    ensures Not(a, w) == Pow2(w) - 1 - a
  {
    if w > 0 {
      NotValue(a / 2, w - 1);
    }
  }

  lemma {:induction false} AndZero(x: nat, w: nat)
    ensures And(x, 0, w) == 0
  {
    if w > 0 {
      AndZero(x / 2, w - 1);
    }
  }

  lemma {:induction false} OrZero(x: nat, w: nat)
    requires x < Pow2(w)
    ensures Or(x, 0, w) == x
  {
    if w > 0 {
      OrZero(x / 2, w - 1);
    }
  }

  lemma {:induction false} AndOnes(x: nat, w: nat)
    requires x < Pow2(w)
    ensures And(x, Pow2(w) - 1, w) == x
  {
    if w > 0 {
      assert (Pow2(w) - 1) / 2 == Pow2(w - 1) - 1;
      AndOnes(x / 2, w - 1);
    }
  }

  /** Masking with the low `k` ones keeps the remainder modulo 2^k (`v & 0xFF` is
      `v % 256`). */
  lemma {:induction false} AndLowMask(x: nat, k: nat, w: nat)
    requires k <= w
    ensures And(x, Pow2(k) - 1, w) == x % Pow2(k)
  {
    if k == 0 {
      AndZero(x, w);
    } else {
      var m, h := Pow2(k) - 1, Pow2(k - 1) - 1;
      assert m / 2 == h && m % 2 == 1;
      AndLowMask(x / 2, k - 1, w - 1);
      var low := And(x / 2, h, w - 1);
      assert low == (x / 2) % Pow2(k - 1);
      assert And(x, m, w) == 2 * low + x % 2;
      ModPow2Split(x, k);
    }
  }

  /** The `w`-bit value whose high `w - k` bits are ones and low `k` bits zeros. */
  function HighOnes(k: nat, w: nat): (m: nat)
    requires k <= w
    ensures m + Pow2(k) == Pow2(w)
  {
    Pow2Monotone(k, w);
    Pow2(w) - Pow2(k)
  }

  /** Masking with the high `w - k` ones clears the low `k` bits. */
  lemma {:induction false} AndHighMask(x: nat, k: nat, w: nat)
    requires k <= w && x < Pow2(w)
    ensures And(x, HighOnes(k, w), w) == x - x % Pow2(k)
  {
    if k == 0 {
      AndOnes(x, w);
    } else {
      assert HighOnes(k, w) / 2 == HighOnes(k - 1, w - 1);
      assert HighOnes(k, w) % 2 == 0;
      AndHighMask(x / 2, k - 1, w - 1);
      ModPow2Split(x, k);
    }
  }

  /** When the low bits of `lo` do not meet the bits of `hi`, `hi | lo` is `hi + lo`. */
  lemma {:induction false} OrDisjoint(hi: nat, lo: nat, k: nat, w: nat)
    requires k <= w && hi < Pow2(w) && hi % Pow2(k) == 0 && lo < Pow2(k)
    ensures Or(hi, lo, w) == hi + lo
  {
    if k == 0 {
      OrZero(hi, w);
    } else {
      ModPow2Split(hi, k);
      OrDisjoint(hi / 2, lo / 2, k - 1, w - 1);
    }
  }

  lemma {:induction false} AndNotSelf(a: nat, w: nat)
    ensures And(a, Not(a, w), w) == 0
  {
    if w > 0 {
      AndNotSelf(a / 2, w - 1);
      assert Not(a, w) / 2 == Not(a / 2, w - 1);
    }
  }

  // ---------------------------------------------------------------------------
  // Bit scans

  /** Index of the lowest set bit (boost `lsb`). */
  function Lsb(x: nat): nat
    requires x > 0
  {
    if x % 2 == 1 then 0 else Lsb(x / 2) + 1
  }

  /** `2^Lsb(x)` divides `x` and `2^(Lsb(x) + 1)` does not. */
  lemma {:induction false} LsbDivides(x: nat)
    requires x > 0
    ensures x % Pow2(Lsb(x)) == 0 && x % Pow2(Lsb(x) + 1) != 0
  {
    if x % 2 == 0 {
      var s := Lsb(x / 2);
      LsbDivides(x / 2);
      ModPow2Split(x, s + 1);
      ModPow2Split(x, s + 2);
    }
  }

  /** Every power of two dividing `x` is at most 2^Lsb(x). */
  lemma LsbMaximal(x: nat, k: nat)
    requires x > 0 && x % Pow2(k) == 0
    ensures k <= Lsb(x)
  {
    LsbDivides(x);
    if k > Lsb(x) {
      Pow2Divides(x, Lsb(x) + 1, k);
    }
  }

  /** Index of the highest set bit (boost `msb`). */
  function Msb(x: nat): nat
    requires x > 0
  {
    if x == 1 then 0 else 1 + Msb(x / 2)
  }

  /** `x` lies between `2^Msb(x)` and `2^(Msb(x) + 1)`. */
  lemma {:induction false} MsbBounds(x: nat)
    requires x > 0
    ensures Pow2(Msb(x)) <= x < Pow2(Msb(x) + 1)
  {
    if x > 1 {
      MsbBounds(x / 2);
    }
  }

  lemma MsbUnique(x: nat, k: nat)
    requires Pow2(k) <= x < Pow2(k + 1)
    ensures Msb(x) == k
  {
    MsbBounds(x);
    if Msb(x) < k {
      Pow2Monotone(Msb(x) + 1, k);
    } else if Msb(x) > k {
      Pow2Monotone(k + 1, Msb(x));
    }
  }

  lemma MsbOfPow2(k: nat)
    ensures Msb(Pow2(k)) == k
  {
    MsbUnique(Pow2(k), k);
  }

  /** The largest power of two not above `x` (`floor_pow2`). */
  function FloorPow2(x: nat): (p: nat)
    requires x > 0
    ensures p == Pow2(Msb(x)) && p <= x < 2 * p
  {
    MsbBounds(x);
    Pow2(Msb(x))
  }

  /** A power of two that fits below `x` is at most `FloorPow2(x)`. */
  lemma FloorPow2Maximal(x: nat, k: nat)
    requires 0 < Pow2(k) <= x
    ensures Pow2(k) <= FloorPow2(x)
  {
    MsbBounds(x);
    if k > Msb(x) {
      Pow2Monotone(Msb(x) + 1, k);
    } else {
      Pow2Monotone(k, Msb(x));
    }
  }

  /** `x & (~x + 1)` at width `w` isolates the lowest set bit. */
  lemma {:induction false} LowbitTwosComplement(x: nat, w: nat)
    requires 0 < x < Pow2(w)
    ensures And(x, Pow2(w) - x, w) == Pow2(Lsb(x))
  {
    if x % 2 == 0 {
      assert (Pow2(w) - x) / 2 == Pow2(w - 1) - x / 2;
      assert (Pow2(w) - x) % 2 == 0;
      LowbitTwosComplement(x / 2, w - 1);
    } else {
      assert (Pow2(w) - x) / 2 == Pow2(w - 1) - 1 - x / 2;
      assert (Pow2(w) - x) % 2 == 1;
      NotValue(x / 2, w - 1);
      AndNotSelf(x / 2, w - 1);
    }
  }

  /** `~x + 1` at width `w` is `2^w - x` for a non-zero `x`. */
  lemma NegateValue(x: nat, w: nat)
    requires 0 < x < Pow2(w)
    ensures (Not(x, w) + 1) % Pow2(w) == Pow2(w) - x
  {
    NotValue(x, w);
    DivModUnique(Not(x, w) + 1, Pow2(w), 0, Pow2(w) - x);
  }

  /** Shifting the all-ones value left by `k` leaves the high `w - k` ones. */
  lemma ShlOnes(k: nat, w: nat)
    requires k <= w
    ensures Shl(Pow2(w) - 1, k, w) == HighOnes(k, w)
  {
    Pow2Monotone(k, w);
    assert (Pow2(w) - 1) * Pow2(k) == (Pow2(k) - 1) * Pow2(w) + HighOnes(k, w);
    DivModUnique((Pow2(w) - 1) * Pow2(k), Pow2(w), Pow2(k) - 1, HighOnes(k, w));
  }

  /** A left shift that does not carry past the width is a multiplication. */
  lemma ShlNoWrap(a: nat, k: nat, w: nat)
    requires a * Pow2(k) < Pow2(w)
    ensures Shl(a, k, w) == a * Pow2(k)
  {
    DivModUnique(a * Pow2(k), Pow2(w), 0, a * Pow2(k));
  }

  /** `a << 1` that does not wrap doubles `a`. */
  lemma ShlOneNoWrap(a: nat, w: nat)
    requires 2 * a < Pow2(w)
    ensures Shl(a, 1, w) == 2 * a
  {
    assert Pow2(1) == 2;
    DivModUnique(2 * a, Pow2(w), 0, 2 * a);
  }

  /** `(1 << (w - 1)) << 1` pushes the only set bit out of a `w`-bit word. */
  lemma TopBitShiftedOut(w: nat)
    requires w > 0
    ensures Shl(Shl(1, w - 1, w), 1, w) == 0
  {
    Pow2StrictMonotone(w - 1, w);
    ShlNoWrap(1, w - 1, w);
    assert Pow2(1) == 2;
    assert Pow2(w - 1) * Pow2(1) == Pow2(w);
    ModOfMultiple(1, Pow2(w));
  }

  // ---------------------------------------------------------------------------
  // Machine-word expressions of the decomposers, at a width `w`

  /** `x & (~x + 1)`: the lowest set bit of a non-zero `w`-bit value. */
  function LowestSetBit(x: nat, w: nat): (y: nat)
    requires 0 < x < Pow2(w)
    ensures y == Pow2(Lsb(x))
  {
    NegateValue(x, w);
    LowbitTwosComplement(x, w);
    And(x, (Not(x, w) + 1) % Pow2(w), w)
  }

  /** `1 << k` at width `w` is `2^k` while the bit stays inside the word. */
  function ShiftedOne(k: nat, w: nat): (y: nat)
    requires k < w
    ensures y == Pow2(k)
  {
    Pow2StrictMonotone(k, w);
    ShlNoWrap(1, k, w);
    Shl(1, k, w)
  }

  /** `a << 1` at width `w` doubles `a` when the result has room. */
  function Doubled(a: nat, w: nat): (y: nat)
    requires 2 * a < Pow2(w)
    ensures y == 2 * a
  {
    ShlOneNoWrap(a, w);
    Shl(a, 1, w)
  }
}
