/** Bitwise operations on natural numbers, and what they are on the masks and shifts the program uses. */
module Bits {

  function Pow2(k: nat): (p: nat)
    ensures p > 0
  {
    if k == 0 then 1 else 2 * Pow2(k - 1)
  }

  function And(a: nat, b: nat): nat
    decreases a
  {
    if a == 0 then 0
    else (if a % 2 == 1 && b % 2 == 1 then 1 else 0) + 2 * And(a / 2, b / 2)
  }

  function Or(a: nat, b: nat): nat
    decreases a + b
  {
    if a == 0 && b == 0 then 0
    else (if a % 2 == 1 || b % 2 == 1 then 1 else 0) + 2 * Or(a / 2, b / 2)
  }

  /** Left shift in a word of `width` bits: what leaves the word is lost. */
  function Shl(a: nat, k: nat, width: nat): nat {
    a * Pow2(k) % Pow2(width)
  }

  function Shr(a: nat, k: nat): nat {
    DivNonNegative(a, Pow2(k));
    a / Pow2(k)
  }

  /** The `k` lowest bits of `a`. */
  function Low(a: nat, k: nat): nat {
    a % Pow2(k)
  }

  // ----- products, quotients and remainders -----

  lemma MulMono(a: int, b: int, d: nat)
    ensures a <= b ==> a * d <= b * d
  {
  }

  lemma MulLess(a: nat, b: nat, p: nat)
    requires a < b && p > 0
    ensures a * p < b * p
  {
  }

  lemma MulPositive(a: nat, b: nat)
    requires a > 0 && b > 0
    ensures a * b > 0
  {
  }

  lemma MulMinus(a: int, b: int, d: int)
    ensures (a - b) * d == a * d - b * d
  {
  }

  lemma MulNext(a: int, d: int)
    ensures (a + 1) * d == a * d + d
  {
  }

  lemma DivMod(a: int, d: int)
    requires d > 0
    ensures a == a / d * d + a % d && 0 <= a % d < d
  {
  }

  lemma DivNonNegative(a: nat, d: nat)
    requires d > 0
    ensures a / d >= 0
  {
    DivMod(a, d);
    MulMono(a / d, -1, d);
  }

  lemma SmallMod(a: nat, m: nat)
    requires a < m
    ensures a % m == a && a / m == 0
  {
  }

  /** Only the zeroth multiple is that small. */
  lemma SmallMultiple(e: int, d: int)
    requires d > 0 && -d < e * d < d
    ensures e == 0
  {
    MulMono(1, e, d);
    MulMono(e, -1, d);
  }

  /** Quotient and remainder are determined by the division equation. */
  lemma DivModUnique(a: int, d: int, q: int, r: int)
    requires d > 0 && a == q * d + r && 0 <= r < d
    ensures a / d == q && a % d == r
  {
    DivMod(a, d);
    MulMinus(a / d, q, d);
    SmallMultiple(a / d - q, d);
  }

  lemma NestedProduct(q: nat, c: nat, s: nat, b: nat, r: nat)
    ensures (q * c + s) * b + r == q * (b * c) + (s * b + r)
  {
  }

  lemma RemainderFits(s: nat, c: nat, b: nat, r: nat)
    requires s < c && r < b
    ensures 0 <= s * b + r < b * c
  {
    MulMono(s + 1, c, b);
    MulNext(s, b);
  }

  /** Dividing by a product, from the two divisions one after the other. */
  lemma DivModMul(a: nat, b: nat, c: nat)
    requires b > 0 && c > 0
    ensures b * c > 0
    ensures a / (b * c) == a / b / c
    ensures a % (b * c) == a / b % c * b + a % b
  {
    DivNonNegative(a, b);
    Quotients(a, b, c, a / b, a % b, a / b / c, a / b % c);
  }

  lemma Quotients(a: nat, b: nat, c: nat, q: nat, r: int, q': int, r': int)
    requires b > 0 && c > 0 && q == a / b && r == a % b && q' == q / c && r' == q % c
    ensures b * c > 0 && a / (b * c) == q' && a % (b * c) == r' * b + r
  {
    DivMod(a, b);
    DivMod(q, c);
    DivNonNegative(q, c);
    MulPositive(b, c);
    NestedProduct(q', c, r', b, r);
    RemainderFits(r', c, b, r);
    DivModUnique(a, b * c, q', r' * b + r);
  }

  // ----- powers of two -----

  lemma PowStep(k: nat)
    ensures Pow2(0) == 1 && Pow2(k + 1) == 2 * Pow2(k)
  {
  }

  lemma TwiceFirst(x: nat, y: nat)
    ensures 2 * x * y == 2 * (x * y)
  {
  }

  lemma {:induction false} Pow2Add(a: nat, b: nat)
    ensures Pow2(a + b) == Pow2(a) * Pow2(b)
  {
    hide Pow2;
    if a == 0 {
      PowStep(0);
    } else {
      Pow2Add(a - 1, b);
      PowStep(a - 1);
      PowStep(a - 1 + b);
      TwiceFirst(Pow2(a - 1), Pow2(b));
    }
  }

  lemma {:induction false} Pow2Mono(a: nat, b: nat)
    requires a <= b
    ensures Pow2(a) <= Pow2(b)
    decreases b
  {
    if a < b {
      Pow2Mono(a, b - 1);
    }
  }

  lemma PowDouble(k: nat, v: nat)
    requires Pow2(k) == v
    ensures Pow2(2 * k) == v * v
  {
    hide Pow2;
    Pow2Add(k, k);
  }

  lemma Pow2At64()
    ensures Pow2(4) == 16 && Pow2(5) == 32 && Pow2(64) == 0x1_0000_0000_0000_0000
  {
    PowDouble(2, 4);
    PowDouble(4, 16);
    PowDouble(8, 256);
    PowDouble(16, 65536);
    PowDouble(32, 0x1_0000_0000);
  }

  // ----- or and and -----

  /** Or with bits below all those of `a` adds them. */
  lemma {:induction false} OrLow(a: nat, b: nat, k: nat)
    requires Low(a, k) == 0 && b < Pow2(k)
    ensures Or(a, b) == a + b
    decreases k
  {
    if k == 0 {
      OrZero(a);
    } else {
      HalfLow(a, k);
      hide Low;
      OrLow(a / 2, b / 2, k - 1);
    }
  }

  lemma {:induction false} OrZero(a: nat)
    ensures Or(a, 0) == a
  {
    if a > 0 {
      OrZero(a / 2);
    }
  }

  lemma HalfLow(a: nat, k: nat)
    requires k > 0
    ensures Low(a, k) == 2 * Low(a / 2, k - 1) + a % 2
  {
    DivModMul(a, 2, Pow2(k - 1));
  }

  lemma LowZero(a: nat)
    ensures Low(a, 0) == 0
  {
  }

  /** Masking with a run of ones from bit `j` up to bit `k` keeps those bits. */
  lemma {:induction false} AndMask(a: nat, j: nat, k: nat)
    requires j <= k
    ensures Pow2(j) <= Pow2(k)
    ensures And(a, Pow2(k) - Pow2(j)) == Low(a, k) - Low(a, j)
    decreases k
  {
    hide And, Low;
    Pow2Mono(j, k);
    if k == 0 {
      AndZero(a);
    } else {
      HalfLow(a, k);
      if j == 0 {
        AndMask(a / 2, 0, k - 1);
        AndUnfold(a, Pow2(k - 1) - 1, 1);
        LowZero(a);
        LowZero(a / 2);
      } else {
        AndMask(a / 2, j - 1, k - 1);
        HalfLow(a, j);
        AndUnfold(a, Pow2(k - 1) - Pow2(j - 1), 0);
      }
    }
  }

  lemma AndUnfold(a: nat, m: nat, bit: nat)
    requires bit <= 1
    ensures And(a, 2 * m + bit) == 2 * And(a / 2, m) + if bit == 1 then a % 2 else 0
  {
    assert (2 * m + bit) / 2 == m && (2 * m + bit) % 2 == bit;
  }

  lemma {:induction false} AndZero(a: nat)
    ensures And(a, 0) == 0
  {
    if a > 0 {
      AndZero(a / 2);
    }
  }

  lemma AndLowMask(a: nat, k: nat)
    ensures And(a, Pow2(k) - 1) == Low(a, k)
  {
    hide And, Low;
    AndMask(a, 0, k);
    LowZero(a);
  }

  lemma AndLowMask4(a: nat)
    ensures And(a, 0x0f) == a % 16
  {
    AndLowMask(a, 4);
    Pow2At64();
  }

  lemma AndLowMask5(a: nat)
    ensures And(a, 0x1f) == a % 32
  {
    AndLowMask(a, 5);
    Pow2At64();
  }
}
