/**
  The depth computation of incremental_merkle.hpp: a rounding up to a power of
  two by smearing bits, and a bit count by masks, together give the number of
  levels of the tree.
*/
module MerkleDepth {
  import opened Bits

  const WORD := 0x1_0000_0000_0000_0000

  /** How many levels lie above `n` leaves. */
  function Levels(n: nat): nat {
    if n <= 1 then 0 else 1 + Levels((n + 1) / 2)
  }

  // ----- the code -----

  function Smear(v: nat, m: nat): nat {
    Or(v, Shr(v, m))
  }

  /** The least power of two that is not below `value`, in a 64-bit word. */
  function NextPowerOf2(value: nat): nat
    requires value > 0
  {
    (Smear(Smear(Smear(Smear(Smear(Smear(value - 1, 1), 2), 4), 8), 16), 32) + 1) % WORD
  }

  /** The position of the one bit of a power of two, or 64 if there is none. */
  function ClzPower2(value: nat): int {
    var lz := 64;
    var lz := if value != 0 then lz - 1 else lz;
    var lz := if And(value, 0x0000_0000_ffff_ffff) != 0 then lz - 32 else lz;
    var lz := if And(value, 0x0000_ffff_0000_ffff) != 0 then lz - 16 else lz;
    var lz := if And(value, 0x00ff_00ff_00ff_00ff) != 0 then lz - 8 else lz;
    var lz := if And(value, 0x0f0f_0f0f_0f0f_0f0f) != 0 then lz - 4 else lz;
    var lz := if And(value, 0x3333_3333_3333_3333) != 0 then lz - 2 else lz;
    var lz := if And(value, 0x5555_5555_5555_5555) != 0 then lz - 1 else lz;
    lz
  }

  function MaxDepth(nodeCount: nat): int {
    if nodeCount == 0 then 0 else ClzPower2(NextPowerOf2(nodeCount)) + 1
  }

  // ----- smearing -----

  /** Of a number of `k` bits, the top `m` are ones. */
  ghost predicate TopOnes(v: nat, k: nat, m: nat) {
    m <= k && v < Pow2(k) && Shr(v, k - m) == Pow2(m) - 1
  }

  lemma {:induction false} OrBound(a: nat, b: nat, k: nat)
    requires a < Pow2(k) && b < Pow2(k)
    ensures Or(a, b) < Pow2(k)
  {
    if k > 0 {
      OrBound(a / 2, b / 2, k - 1);
    }
  }

  lemma {:induction false} OrShr(a: nat, b: nat, j: nat)
    ensures Shr(Or(a, b), j) == Or(Shr(a, j), Shr(b, j))
  {
    if j > 0 {
      OrShr(a / 2, b / 2, j - 1);
      ShrHalf(a, j);
      ShrHalf(b, j);
      ShrHalf(Or(a, b), j);
      OrHalf(a, b);
    }
  }

  lemma OrHalf(a: nat, b: nat)
    ensures Or(a, b) / 2 == Or(a / 2, b / 2)
  {
  }

  lemma ShrHalf(a: nat, j: nat)
    requires j > 0
    ensures Shr(a, j) == Shr(a / 2, j - 1)
  {
    DivModMul(a, 2, Pow2(j - 1));
  }

  lemma ShrShr(a: nat, i: nat, j: nat)
    ensures Shr(Shr(a, i), j) == Shr(a, i + j)
  {
    Pow2Add(i, j);
    DivModMul(a, Pow2(i), Pow2(j));
  }

  /** Or with a run of ones fills the low bits. */
  lemma {:induction false} OrOnes(x: nat, g: nat)
    ensures Or(x, Pow2(g) - 1) == x - Low(x, g) + Pow2(g) - 1
  {
    hide Low;
    if g == 0 {
      OrZero(x);
      LowZero(x);
    } else {
      OrOnes(x / 2, g - 1);
      HalfLow(x, g);
      OrOdd(x, Pow2(g - 1) - 1);
    }
  }

  lemma OrOdd(x: nat, m: nat)
    ensures Or(x, 2 * m + 1) == 2 * Or(x / 2, m) + 1
  {
    assert (2 * m + 1) / 2 == m && (2 * m + 1) % 2 == 1;
  }

  lemma ShrLow(x: nat, g: nat)
    ensures x == Shr(x, g) * Pow2(g) + Low(x, g)
  {
  }

  lemma {:induction false} ShrOnes(m: nat, s: nat)
    requires s <= m
    ensures Shr(Pow2(m) - 1, s) == Pow2(m - s) - 1
  {
    if s > 0 {
      ShrHalf(Pow2(m) - 1, s);
      assert (Pow2(m) - 1) / 2 == Pow2(m - 1) - 1;
      ShrOnes(m - 1, s - 1);
    }
  }

  /** Each smearing step doubles the run of ones, up to the length of the number. */
  lemma SmearStep(v: nat, k: nat, m: nat)
    requires TopOnes(v, k, m)
    ensures TopOnes(Smear(v, m), k, if 2 * m <= k then 2 * m else k)
  {
    hide Or, Shr, Pow2, Low;
    var g := if 2 * m <= k then m else k - m;
    var j := k - m - g;
    var x, y := Shr(v, j), Shr(Shr(v, m), j);
    ShrAtMost(v, m);
    OrBound(v, Shr(v, m), k);
    OrShr(v, Shr(v, m), j);
    ShrShr(v, j, g);
    ShrShr(v, m, j);
    ShrShr(v, k - m, m - g);
    ShrOnes(m, m - g);
    OrOnes(x, g);
    ShrLow(x, g);
    OnesJoin(m, g);
  }

  lemma ShrAtMost(v: nat, m: nat)
    ensures Shr(v, m) <= v
  {
    hide Pow2;
    QuotientAtMost(v, Pow2(m));
  }

  lemma QuotientAtMost(v: nat, p: nat)
    requires p > 0
    ensures v / p <= v
  {
    var q := v / p;
    assert v == q * p + v % p;
    MulMono(1, p, q);
    assert p * q == q * p;
  }

  lemma OnesJoin(m: nat, g: nat)
    ensures (Pow2(m) - 1) * Pow2(g) + Pow2(g) - 1 == Pow2(m + g) - 1
  {
    Pow2Add(m, g);
  }

  function Least(a: nat, b: nat): nat {
    if a <= b then a else b
  }

  /** Six steps turn any number of `k` bits, up to 64, into all ones. */
  lemma Smeared(v: nat, k: nat)
    requires k <= 64 && v < Pow2(k) && (k > 0 ==> Pow2(k - 1) <= v)
    ensures Smear(Smear(Smear(Smear(Smear(Smear(v, 1), 2), 4), 8), 16), 32) == Pow2(k) - 1
  {
    hide Smear;
    FirstOne(v, k);
    var v1 := Smear(v, 1);
    SmearLeast(v, k, 1);
    var v2 := Smear(v1, 2);
    SmearLeast(v1, k, 2);
    var v3 := Smear(v2, 4);
    SmearLeast(v2, k, 4);
    var v4 := Smear(v3, 8);
    SmearLeast(v3, k, 8);
    var v5 := Smear(v4, 16);
    SmearLeast(v4, k, 16);
    SmearLeast(v5, k, 32);
  }

  lemma FirstOne(v: nat, k: nat)
    requires v < Pow2(k) && (k > 0 ==> Pow2(k - 1) <= v)
    ensures TopOnes(v, k, Least(1, k))
  {
    if k > 0 {
      DivModUnique(v, Pow2(k - 1), 1, v - Pow2(k - 1));
    }
  }

  lemma SmearLeast(v: nat, k: nat, m: nat)
    requires TopOnes(v, k, Least(m, k))
    ensures TopOnes(Smear(v, m), k, Least(2 * m, k))
  {
    hide TopOnes, Smear;
    if m <= k {
      SmearStep(v, k, m);
    } else {
      AllOnesStay(v, k, m);
    }
  }

  lemma AllOnesStay(v: nat, k: nat, m: nat)
    requires k < m && TopOnes(v, k, k)
    ensures Smear(v, m) == v
  {
    Pow2Mono(k, m);
    assert v < Pow2(m);
    hide Pow2, Or;
    SmallMod(v, Pow2(m));
    OrZero(v);
  }

  // ----- counting with masks -----

  /** A power of two meets a mask exactly when the mask has its bit. */
  lemma {:induction false} AndPower(k: nat, mask: nat)
    ensures And(Pow2(k), mask) != 0 <==> Shr(mask, k) % 2 == 1
  {
    if k == 0 {
      assert And(1, mask) == mask % 2 + 2 * And(0, mask / 2);
    } else {
      AndPower(k - 1, mask / 2);
      ShrHalf(mask, k);
      hide Shr;
      assert And(Pow2(k), mask) == 2 * And(Pow2(k - 1), mask / 2);
    }
  }

  /** `reps` times `w` zeros and `w` ones, the ones below. */
  function Stripes(w: nat, reps: nat): nat {
    if reps == 0 then 0 else Stripes(w, reps - 1) * Pow2(2 * w) + (Pow2(w) - 1)
  }

  lemma {:induction false} StripeBit(w: nat, reps: nat, k: nat)
    requires w > 0 && k < 2 * w * reps
    ensures Shr(Stripes(w, reps), k) % 2 == 1 <==> k / w % 2 == 0
    decreases reps
  {
    hide Pow2, Shr;
    MoreStripes(w, reps, k);
    var x := Stripes(w, reps - 1);
    if k < 2 * w {
      LowStripe(x, w, k);
      if k < w {
        SmallMod(k, w);
      } else {
        DivModUnique(k, w, 1, k - w);
      }
    } else {
      StripeBit(w, reps - 1, k - 2 * w);
      HighStripe(x, w, k);
      SubtractTwo(k, w);
    }
  }

  lemma MoreStripes(w: nat, reps: nat, k: nat)
    requires k < 2 * w * reps
    ensures reps > 0 && k - 2 * w < 2 * w * (reps - 1)
  {
    MulNext(reps - 1, 2 * w);
  }

  lemma SubtractTwo(k: nat, w: nat)
    requires w > 0 && k >= 2 * w
    ensures (k - 2 * w) / w == k / w - 2
  {
    DivMod(k, w);
    MulMinus(k / w, 2, w);
    DivModUnique(k - 2 * w, w, k / w - 2, k % w);
  }

  lemma LowStripe(x: nat, w: nat, k: nat)
    requires k < 2 * w
    ensures Shr(x * Pow2(2 * w) + (Pow2(w) - 1), k) % 2 == 1 <==> k < w
  {
    hide Pow2, Shr;
    var q := Pow2(2 * w - k);
    PowStep(2 * w - k - 1);
    Pow2Add(2 * w - k, k);
    ShrSum(x, q, k, Pow2(w) - 1);
    EvenPlus(x, Pow2(2 * w - k - 1), q, Shr(Pow2(w) - 1, k));
    OnesParity(w, k);
  }

  lemma ShrSum(x: nat, rest: nat, k: nat, low: nat)
    ensures Shr(x * (rest * Pow2(k)) + low, k) == x * rest + Shr(low, k)
  {
    hide Pow2;
    var p := Pow2(k);
    DivMod(low, p);
    DivNonNegative(low, p);
    SumOfProducts(x, rest, p, low / p, low % p);
    DivModUnique(x * (rest * p) + low, p, x * rest + low / p, low % p);
  }

  lemma SumOfProducts(x: nat, rest: nat, p: nat, q: nat, r: nat)
    ensures x * (rest * p) + (q * p + r) == (x * rest + q) * p + r
  {
  }

  lemma OnesParity(w: nat, k: nat)
    ensures Shr(Pow2(w) - 1, k) % 2 == 1 <==> k < w
  {
    hide Pow2;
    if k < w {
      ShrOnes(w, k);
      PowStep(w - k - 1);
    } else {
      Pow2Mono(w, k);
      SmallMod(Pow2(w) - 1, Pow2(k));
    }
  }

  lemma EvenPlus(x: nat, h: nat, even: nat, q: nat)
    requires even == 2 * h
    ensures (x * even + q) % 2 == q % 2
  {
    TwiceProduct(x, h);
    TwicePlus(x * h, q);
  }

  lemma TwiceProduct(x: nat, h: nat)
    ensures x * (2 * h) == 2 * (x * h)
  {
  }

  lemma TwicePlus(y: nat, q: nat)
    ensures (2 * y + q) % 2 == q % 2
  {
  }

  lemma HighStripe(x: nat, w: nat, k: nat)
    requires k >= 2 * w
    ensures Shr(x * Pow2(2 * w) + (Pow2(w) - 1), k) == Shr(x, k - 2 * w)
  {
    hide Pow2;
    var v := x * Pow2(2 * w) + (Pow2(w) - 1);
    Pow2Mono(w, 2 * w);
    DivModUnique(v, Pow2(2 * w), x, Pow2(w) - 1);
    ShrShr(v, 2 * w, k - 2 * w);
  }

  lemma {:induction false} StripesJoin(w: nat, r: nat, n: nat)
    ensures Stripes(w, r + n) == Stripes(w, n) * Pow2(2 * w * r) + Stripes(w, r)
    decreases r
  {
    hide Pow2;
    if r == 0 {
      PowStep(0);
    } else {
      StripesJoin(w, r - 1, n);
      var p, q := Pow2(2 * w), Pow2(2 * w * (r - 1));
      MulNext(r - 1, 2 * w);
      Pow2Add(2 * w * (r - 1), 2 * w);
      StripeSum(Stripes(w, n), Stripes(w, r - 1), q, p, Pow2(w) - 1);
    }
  }

  lemma StripeSum(a: nat, b: nat, q: nat, p: nat, c: nat)
    ensures (a * q + b) * p + c == a * (q * p) + (b * p + c)
  {
  }

  lemma OneStripe(w: nat)
    ensures Stripes(w, 1) == Pow2(w) - 1
  {
    hide Pow2;
  }

  lemma StripesTwice(w: nat, r: nat, stripes: nat, p: nat)
    requires Stripes(w, r) == stripes && Pow2(2 * w * r) == p
    ensures Stripes(w, 2 * r) == stripes * p + stripes
  {
    hide Stripes, Pow2;
    StripesJoin(w, r, r);
  }

  lemma WideMasks()
    ensures Stripes(32, 1) == 0x0000_0000_ffff_ffff
    ensures Stripes(16, 2) == 0x0000_ffff_0000_ffff
    ensures Stripes(8, 4) == 0x00ff_00ff_00ff_00ff
  {
    hide Stripes, Pow2;
    SmallPowers();
    OneStripe(32);
    OneStripe(16);
    StripesTwice(16, 1, 0xffff, 0x1_0000_0000);
    OneStripe(8);
    StripesTwice(8, 1, 0xff, 0x1_0000);
    StripesTwice(8, 2, 0x00ff_00ff, 0x1_0000_0000);
  }

  lemma NarrowMasks()
    ensures Stripes(4, 8) == 0x0f0f_0f0f_0f0f_0f0f
    ensures Stripes(2, 16) == 0x3333_3333_3333_3333
    ensures Stripes(1, 32) == 0x5555_5555_5555_5555
  {
    hide Stripes, Pow2;
    SmallPowers();
    OneStripe(4);
    StripesTwice(4, 1, 0xf, 0x100);
    StripesTwice(4, 2, 0x0f0f, 0x1_0000);
    StripesTwice(4, 4, 0x0f0f_0f0f, 0x1_0000_0000);
    OneStripe(2);
    StripesTwice(2, 1, 0x3, 0x10);
    StripesTwice(2, 2, 0x33, 0x100);
    StripesTwice(2, 4, 0x3333, 0x1_0000);
    StripesTwice(2, 8, 0x3333_3333, 0x1_0000_0000);
    OneStripe(1);
    StripesTwice(1, 1, 0x1, 0x4);
    StripesTwice(1, 2, 0x5, 0x10);
    StripesTwice(1, 4, 0x55, 0x100);
    StripesTwice(1, 8, 0x5555, 0x1_0000);
    StripesTwice(1, 16, 0x5555_5555, 0x1_0000_0000);
  }

  lemma SmallPowers()
    ensures Pow2(1) == 2 && Pow2(2) == 4 && Pow2(4) == 16 && Pow2(8) == 256
    ensures Pow2(16) == 0x1_0000 && Pow2(32) == 0x1_0000_0000
  {
    PowDouble(2, 4);
    PowDouble(4, 16);
    PowDouble(8, 256);
    PowDouble(16, 65536);
  }

  /** The masks pick out the binary digits of the exponent. */
  lemma ClzOfPower(k: nat)
    requires k <= 64
    ensures ClzPower2(Pow2(k) % WORD) == k
  {
    hide And, Stripes, Pow2, Shr, ClzPower2;
    Pow2At64();
    if k == 64 {
      ClzOfZero();
    } else {
      PowBelowWord(k);
      WideMasks();
    NarrowMasks();
      MaskBit(32, 1, k);
      MaskBit(16, 2, k);
      MaskBit(8, 4, k);
      MaskBit(4, 8, k);
      MaskBit(2, 16, k);
      MaskBit(1, 32, k);
      ClzFromDigits(Pow2(k), k);
    }
  }

  lemma ClzOfZero()
    ensures ClzPower2(0) == 64
  {
  }

  lemma PowBelowWord(k: nat)
    requires k < 64
    ensures Pow2(k) < WORD && Pow2(k) % WORD == Pow2(k)
  {
    Pow2At64();
    Pow2Mono(k + 1, 64);
    SmallMod(Pow2(k), WORD);
  }

  lemma ClzFromDigits(value: nat, k: nat)
    requires k < 64 && value != 0
    requires And(value, 0x0000_0000_ffff_ffff) != 0 <==> k / 32 % 2 == 0
    requires And(value, 0x0000_ffff_0000_ffff) != 0 <==> k / 16 % 2 == 0
    requires And(value, 0x00ff_00ff_00ff_00ff) != 0 <==> k / 8 % 2 == 0
    requires And(value, 0x0f0f_0f0f_0f0f_0f0f) != 0 <==> k / 4 % 2 == 0
    requires And(value, 0x3333_3333_3333_3333) != 0 <==> k / 2 % 2 == 0
    requires And(value, 0x5555_5555_5555_5555) != 0 <==> k % 2 == 0
    ensures ClzPower2(value) == k
  {
    hide And;
    BinaryDigits(k);
    ClzFromBits(value, k / 32 % 2, k / 16 % 2, k / 8 % 2, k / 4 % 2, k / 2 % 2, k % 2);
  }

  lemma ClzFromBits(value: nat, a: nat, b: nat, c: nat, d: nat, e: nat, f: nat)
    requires value != 0 && a < 2 && b < 2 && c < 2 && d < 2 && e < 2 && f < 2
    requires And(value, 0x0000_0000_ffff_ffff) != 0 <==> a == 0
    requires And(value, 0x0000_ffff_0000_ffff) != 0 <==> b == 0
    requires And(value, 0x00ff_00ff_00ff_00ff) != 0 <==> c == 0
    requires And(value, 0x0f0f_0f0f_0f0f_0f0f) != 0 <==> d == 0
    requires And(value, 0x3333_3333_3333_3333) != 0 <==> e == 0
    requires And(value, 0x5555_5555_5555_5555) != 0 <==> f == 0
    ensures ClzPower2(value) == 32 * a + 16 * b + 8 * c + 4 * d + 2 * e + f
  {
    hide And;
  }

  lemma BinaryDigits(k: nat)
    requires k < 64
    ensures k == 32 * (k / 32 % 2) + 16 * (k / 16 % 2) + 8 * (k / 8 % 2) + 4 * (k / 4 % 2)
                 + 2 * (k / 2 % 2) + k % 2
  {
    Halve(k, 2);
    Halve(k, 4);
    Halve(k, 8);
    Halve(k, 16);
    SmallMod(k / 32, 2);
  }

  lemma Halve(k: nat, d: nat)
    requires d > 0
    ensures k / (d * 2) == k / d / 2
  {
    DivModMul(k, d, 2);
  }

  lemma MaskBit(w: nat, reps: nat, k: nat)
    requires w > 0 && k < 2 * w * reps
    ensures And(Pow2(k), Stripes(w, reps)) != 0 <==> k / w % 2 == 0
  {
    hide And, Stripes, Shr, Pow2;
    AndPower(k, Stripes(w, reps));
    StripeBit(w, reps, k);
  }

  // ----- the result -----

  lemma {:induction false} LevelsBounds(n: nat)
    requires n > 0
    ensures n <= Pow2(Levels(n)) && (n > 1 ==> Pow2(Levels(n) - 1) < n)
  {
    if n > 1 {
      LevelsBounds((n + 1) / 2);
    }
  }

  /** The bit tricks count the levels of the tree, plus one, for every 64-bit count; without leaves there are none. */
  lemma MaxDepthIsLevels(n: nat)
    requires n < 0x1_0000_0000_0000_0000
    ensures MaxDepth(n) == if n == 0 then 0 else Levels(n) + 1
  {
    hide Smear, ClzPower2, Levels, Pow2;
    if n > 0 {
      var k := Levels(n);
      LevelsBounds(n);
      LevelsAtMost64(n);
      SingleLevel(n);
      Smeared(n - 1, k);
      ClzOfPower(k);
    }
  }

  lemma SingleLevel(n: nat)
    ensures Levels(n) == 0 <==> n <= 1
    ensures Pow2(0) == 1
  {
  }

  lemma LevelsAtMost64(n: nat)
    requires 0 < n < 0x1_0000_0000_0000_0000
    ensures Levels(n) <= 64
  {
    LevelsBounds(n);
    Pow2At64();
    if Levels(n) > 64 {
      Pow2Mono(64, Levels(n) - 1);
    }
  }
}
