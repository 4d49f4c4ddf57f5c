/** Powers of two, and bit slices of unsigned words as arithmetic. */
module Bits {

  type u32 = x: int | 0 <= x < 0x1_0000_0000

  function Pow2(n: nat): (p: nat)
    ensures p > 0
  {
    if n == 0 then 1 else 2 * Pow2(n - 1)
  }

  lemma {:induction false} Pow2Adds(a: nat, b: nat)
    ensures Pow2(a + b) == Pow2(a) * Pow2(b)
  {
    if a > 0 {
      Pow2Adds(a - 1, b);
      assert Pow2(a + b) == 2 * Pow2(a - 1 + b);
    }
  }

  lemma Pow2Grows(a: nat, b: nat)
    requires a < b
    ensures Pow2(a) < Pow2(b)
    decreases b - a
  {
    if a + 1 < b {
      Pow2Grows(a + 1, b);
    }
  }

  lemma Pow2Of32()
    ensures Pow2(32) == 0x1_0000_0000
  {
    assert Pow2(8) == 256;
    Pow2Adds(8, 8);
    Pow2Adds(16, 16);
  }

  lemma Distributes(d: int, q: int, q': int)
    ensures d * (q - q') == d * q - d * q'
  {
  }

  lemma TimesAtLeast(d: nat, k: int)
    requires k >= 1
    ensures d * k >= d
  {
    Distributes(d, k, 1);
  }

  lemma AtMostOneQuotient(d: nat, q: int, r: int, q': int, r': int)
    requires d > 0 && 0 <= r < d && 0 <= r' && d * q + r == d * q' + r'
    ensures q >= q'
  {
    if q < q' {
      TimesAtLeast(d, q' - q);
      Distributes(d, q', q);
    }
  }

  /** Quotient and remainder are unique. */
  lemma DivModUnique(x: nat, d: nat, q: int, r: int)
    requires d > 0 && x == d * q + r && 0 <= r < d
    ensures x / d == q && x % d == r
  {
    AtMostOneQuotient(d, q, r, x / d, x % d);
    AtMostOneQuotient(d, x / d, x % d, q, r);
  }

  lemma Regroup(p: int, q: int, z: int, w: int)
    ensures p * (q * z + w) == (p * q) * z + p * w
  {
  }

  lemma Positional(p: nat, q: nat, w: nat, r: nat)
    requires r < p && w < q
    ensures p * w + r < p * q
  {
    Distributes(p, q, w);
    TimesAtLeast(p, q - w);
  }

  /** The low b bits are the low a bits and the slice between a and b. */
  lemma LowBitsSplit(x: nat, a: nat, b: nat)
    requires a <= b
    ensures x % Pow2(b) == x % Pow2(a) + Pow2(a) * (x / Pow2(a) % Pow2(b - a))
  {
    Pow2Adds(a, b - a);
    DigitsSplit(x, Pow2(a), Pow2(b - a));
  }

  lemma DigitsSplit(x: nat, p: nat, q: nat)
    requires p > 0 && q > 0
    ensures p * q > 0 && x % (p * q) == x % p + p * (x / p % q)
  {
    var y, r := x / p, x % p;
    var z, w := y / q, y % q;
    Regroup(p, q, z, w);
    Positional(p, q, w, r);
    DivModUnique(x, p * q, z, p * w + r);
  }

  // ------------------------------------------------------- bitwise and, bitwise or

  function And(a: nat, b: nat): nat {
    if a == 0 || b == 0 then 0
    else 2 * And(a / 2, b / 2) + if a % 2 == 1 && b % 2 == 1 then 1 else 0
  }

  function Or(a: nat, b: nat): nat {
    if a == 0 then b
    else if b == 0 then a
    else 2 * Or(a / 2, b / 2) + if a % 2 == 1 || b % 2 == 1 then 1 else 0
  }

  lemma LowBitsHalve(w: nat, k: nat)
    requires k > 0
    ensures w % Pow2(k) == 2 * (w / 2 % Pow2(k - 1)) + w % 2
  {
    assert Pow2(1) == 2;
    LowBitsSplit(w, 1, k);
  }

  lemma {:induction false} AndLowMask(w: nat, k: nat)
    ensures And(w, Pow2(k) - 1) == w % Pow2(k)
  {
    if w == 0 {
      DivModUnique(0, Pow2(k), 0, 0);
    } else if k > 0 {
      AndLowMask(w / 2, k - 1);
      LowBitsHalve(w, k);
    }
  }

  lemma AndDoubled(w: nat, m: nat)
    ensures And(w, 2 * m) == 2 * And(w / 2, m)
  {
    assert 2 * m / 2 == m && 2 * m % 2 == 0;
  }

  lemma {:induction false} AndHighMask(w: nat, k: nat, n: nat)
    requires k <= n && w < Pow2(n)
    ensures Pow2(k) <= Pow2(n)
    ensures And(w, Pow2(n) - Pow2(k)) == w - w % Pow2(k)
  {
    if k == 0 {
      AndLowMask(w, n);
      DivModUnique(w, Pow2(n), 0, w);
    } else {
      AndHighMask(w / 2, k - 1, n - 1);
      AndDoubled(w, Pow2(n - 1) - Pow2(k - 1));
      LowBitsHalve(w, k);
    }
  }

  lemma {:induction false} OrDisjoint(x: nat, y: nat, k: nat)
    requires x % Pow2(k) == 0 && y < Pow2(k)
    ensures Or(x, y) == x + y
  {
    if k > 0 {
      LowBitsHalve(x, k);
      OrDisjoint(x / 2, y / 2, k - 1);
    }
  }

  lemma OrOfZero(a: nat)
    ensures Or(a, 0) == a && Or(0, a) == a
  {
  }

  lemma OrOfBits(p: nat, q: nat, x: nat, y: nat)
    requires x < 2 && y < 2
    ensures Or(2 * p + x, 2 * q + y) == 2 * Or(p, q) + Or(x, y)
  {
    OrOfZero(p);
    OrOfZero(q);
  }

  lemma OrOfEqual(a: nat, b: nat, c: nat, d: nat)
    requires a == c && b == d
    ensures Or(a, b) == Or(c, d)
  {
  }

  lemma OrDoubled(p: nat, q: nat)
    ensures Or(2 * p, 2 * q) == 2 * Or(p, q)
  {
    OrOfBits(p, q, 0, 0);
  }

  lemma OrHalves(x: nat, y: nat)
    ensures Or(x, y) == 2 * Or(x / 2, y / 2) + Or(x % 2, y % 2)
  {
    OrOfBits(x / 2, y / 2, x % 2, y % 2);
  }

  lemma HalfOfSum(p: nat, x: nat)
    requires p % 2 == 0
    ensures (p + x) / 2 == p / 2 + x / 2 && (p + x) % 2 == x % 2
  {
  }

  lemma OrOfSumHalves(p: nat, q: nat, x: nat, y: nat)
    requires p % 2 == 0 && q % 2 == 0
    ensures Or(p + x, q + y) == 2 * Or(p / 2 + x / 2, q / 2 + y / 2) + Or(x % 2, y % 2)
  {
    HalfOfSum(p, x);
    HalfOfSum(q, y);
    OrHalves(p + x, q + y);
  }

  lemma OneMoreBit(p: nat, q: nat, x: nat, y: nat)
    requires p % 2 == 0 && q % 2 == 0
    requires Or(p / 2 + x / 2, q / 2 + y / 2) == Or(p / 2, q / 2) + Or(x / 2, y / 2)
    ensures Or(p + x, q + y) == Or(p, q) + Or(x, y)
  {
    OrOfSumHalves(p, q, x, y);
    OrOfSumHalves(p, q, 0, 0);
    OrHalves(x, y);
  }

  lemma UpperBitsHalve(p: nat, k: nat)
    requires k > 0 && p % Pow2(k) == 0
    ensures p % 2 == 0 && p / 2 % Pow2(k - 1) == 0
  {
    LowBitsHalve(p, k);
  }

  /** The upper and the lower bits of an or are the ors of the upper and lower bits. */
  lemma {:induction false} OrSplits(k: nat, p: nat, q: nat, x: nat, y: nat)
    requires p % Pow2(k) == 0 && q % Pow2(k) == 0 && x < Pow2(k) && y < Pow2(k)
    ensures Or(p + x, q + y) == Or(p, q) + Or(x, y)
  {
    if k > 0 {
      UpperBitsHalve(p, k);
      UpperBitsHalve(q, k);
      OrSplits(k - 1, p / 2, q / 2, x / 2, y / 2);
      OneMoreBit(p, q, x, y);
    } else {
      OrOfZero(0);
    }
  }

  lemma OrOfMultiples(p: nat, q: nat)
    ensures Or(16 * p, 16 * q) == 16 * Or(p, q)
  {
    OrDoubled(p, q);
    OrDoubled(2 * p, 2 * q);
    OrDoubled(4 * p, 4 * q);
    OrDoubled(8 * p, 8 * q);
  }

  /** An or is taken nibble by nibble. */
  lemma OrOfNibbles(p: nat, q: nat, x: nat, y: nat)
    requires x < 16 && y < 16
    ensures Or(16 * p + x, 16 * q + y) == 16 * Or(p, q) + Or(x, y)
  {
    assert Pow2(4) == 16;
    OrSplits(4, 16 * p, 16 * q, x, y);
    OrOfMultiples(p, q);
  }

  lemma HalveThenDivide(x: nat, p: nat)
    requires p > 0
    ensures x / (2 * p) == x / 2 / p
  {
    var h := x / 2;
    assert h == p * (h / p) + h % p;
    Regroup(2, p, h / p, h % p);
    DivModUnique(x, 2 * p, h / p, 2 * (h % p) + x % 2);
  }

  /** An or with a single bit sets that bit. */
  lemma {:induction false} OrWithBit(k: nat, x: nat)
    ensures Or(Pow2(k), x) == if x / Pow2(k) % 2 == 1 then x else x + Pow2(k)
  {
    if k == 0 {
      OrHalves(1, x);
      OrOfZero(x / 2);
    } else {
      OrWithBit(k - 1, x / 2);
      HalveThenDivide(x, Pow2(k - 1));
      OrDoubledWith(Pow2(k - 1), x);
    }
  }

  lemma OrDoubledWith(p: nat, x: nat)
    ensures Or(2 * p, x) == 2 * Or(p, x / 2) + x % 2
  {
    OrOfBits(p, x / 2, 0, x % 2);
    OrOfEqual(2 * p, x, 2 * p + 0, 2 * (x / 2) + x % 2);
  }
}
