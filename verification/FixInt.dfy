/**
  Conversion of a binary floating-point bit pattern to a 128-bit integer
  (libraries/builtins/fixdfti.c for binary64, libraries/builtins/fixtfti.c for
  binary128; the layouts are those of section 3.4 of IEEE 754-2008).
*/
module FixInt {
  import opened Bits

  /** How many bits hold the significand and the exponent; one more holds the sign. */
  datatype Format = Format(sigBits: nat, expBits: nat) {
    const width := sigBits + expBits + 1
    const maxExponent: int := Pow2(expBits) - 1
    const bias := maxExponent / 2
  }

  const BINARY64 := Format(52, 11)
  const BINARY128 := Format(112, 15)

  ghost predicate Known(fmt: Format) {
    fmt == BINARY64 || fmt == BINARY128
  }

  const INT_MAX: int := 0x7fff_ffff_ffff_ffff_ffff_ffff_ffff_ffff
  const INT_MIN: int := -0x8000_0000_0000_0000_0000_0000_0000_0000

  /** The 128-bit integer with the same low 128 bits. */
  function Wrap(x: int): (r: int)
    ensures INT_MIN <= r <= INT_MAX
  {
    var m := x % 0x1_0000_0000_0000_0000_0000_0000_0000_0000;
    if m > INT_MAX then m - 0x1_0000_0000_0000_0000_0000_0000_0000_0000 else m
  }

  // ----- the fields of a pattern, by masking and shifting -----

  function AbsBits(fmt: Format, a: nat): nat {
    And(a, Pow2(fmt.width - 1) - 1)
  }

  predicate Negative(fmt: Format, a: nat) {
    And(a, Pow2(fmt.width - 1)) != 0
  }

  function Exponent(fmt: Format, a: nat): int {
    Shr(AbsBits(fmt, a), fmt.sigBits) - fmt.bias
  }

  function Significand(fmt: Format, a: nat): nat {
    Or(Pow2(fmt.sigBits), And(AbsBits(fmt, a), Pow2(fmt.sigBits) - 1))
  }

  /** The conversion. Shifts and products out of range wrap around, as the machine's do. */
  function Fix(fmt: Format, a: nat): int {
    var sign := if Negative(fmt, a) then -1 else 1;
    var exponent := Exponent(fmt, a);
    var significand := Significand(fmt, a);
    if exponent < 0 then 0
    else if exponent >= 128 then (if sign == 1 then INT_MAX else INT_MIN)
    else if exponent < fmt.sigBits then sign * Shr(significand, fmt.sigBits - exponent)
    else Wrap(sign * Wrap(significand * Pow2(exponent - fmt.sigBits)))
  }

  // ----- the number a pattern stands for -----

  function TrailingBits(fmt: Format, a: nat): nat {
    Low(a, fmt.sigBits)
  }

  function ExponentField(fmt: Format, a: nat): nat {
    Low(Shr(a, fmt.sigBits), fmt.expBits)
  }

  predicate Finite(fmt: Format, a: nat) {
    ExponentField(fmt, a) != fmt.maxExponent
  }

  /** `m` times two to the `k`. */
  function Scale(m: nat, k: int): real {
    if k >= 0 then (m * Pow2(k)) as real else m as real / Pow2(-k) as real
  }

  /** The magnitude encoded by a finite pattern: subnormal when the exponent field is zero. */
  function Magnitude(fmt: Format, a: nat): real {
    var e, m := ExponentField(fmt, a), TrailingBits(fmt, a);
    if e == 0 then Scale(m, 1 - fmt.bias - fmt.sigBits)
    else Scale(Pow2(fmt.sigBits) + m, e - fmt.bias - fmt.sigBits)
  }

  function Value(fmt: Format, a: nat): real {
    if a / Pow2(fmt.width - 1) % 2 == 1 then -Magnitude(fmt, a) else Magnitude(fmt, a)
  }

  /** Rounding toward zero, as convertToIntegerTowardZero of section 5.8 of IEEE 754-2008 asks. */
  function Truncate(x: real): int {
    if x >= 0.0 then x.Floor else -(-x).Floor
  }

  function Saturate(t: int): int {
    if t > INT_MAX then INT_MAX else if t < INT_MIN then INT_MIN else t
  }

  // ----- the masks read the fields -----

  lemma FieldsRead(fmt: Format, a: nat)
    requires fmt.sigBits > 0 && fmt.expBits > 0
    ensures AbsBits(fmt, a) == Low(a, fmt.width - 1)
    ensures Exponent(fmt, a) == ExponentField(fmt, a) - fmt.bias
    ensures Significand(fmt, a) == Pow2(fmt.sigBits) + TrailingBits(fmt, a)
    ensures Negative(fmt, a) <==> a / Pow2(fmt.width - 1) % 2 == 1
  {
    hide And, Or, Low, Shr, Pow2;
    AndLowMask(a, fmt.width - 1);
    AndLowMask(Low(a, fmt.width - 1), fmt.sigBits);
    LowFields(a, fmt.sigBits, fmt.expBits);
    LowBound(a, fmt.sigBits);
    OrLow(Pow2(fmt.sigBits), TrailingBits(fmt, a), fmt.sigBits);
    SignBit(a, fmt.width - 1);
  }

  lemma LowBound(a: nat, k: nat)
    ensures Low(a, k) < Pow2(k)
    ensures Low(Pow2(k), k) == 0
  {
  }

  /** Cutting a number at bit `s` and at bit `s + e`. */
  lemma LowFields(a: nat, s: nat, e: nat)
    ensures Shr(Low(a, s + e), s) == Low(Shr(a, s), e)
    ensures Low(Low(a, s + e), s) == Low(a, s)
  {
    Pow2Add(s, e);
    DivModMul(a, Pow2(s), Pow2(e));
    DivModUnique(Low(a, s + e), Pow2(s), Low(Shr(a, s), e), Low(a, s));
  }

  lemma SignBit(a: nat, k: nat)
    ensures And(a, Pow2(k)) != 0 <==> a / Pow2(k) % 2 == 1
  {
    AndMask(a, k, k + 1);
    DivModMul(a, Pow2(k), 2);
    assert Pow2(k + 1) - Pow2(k) == Pow2(k);
    assert Low(a, k + 1) - Low(a, k) == a / Pow2(k) % 2 * Pow2(k);
  }

  // ----- truncation -----

  /** The integer part of `sig` times two to the `e - s`. */
  function IntPart(sig: nat, e: int, s: nat): nat {
    if e < 0 then 0
    else if e < s then Shr(sig, s - e)
    else sig * Pow2(e - s)
  }

  lemma FloorDiv(m: nat, d: nat)
    requires d > 0
    ensures m as real / d as real >= 0.0
    ensures (m as real / d as real).Floor == m / d
  {
    var q, x := m / d, m as real / d as real;
    DivMod(m, d);
    DivNonNegative(m, d);
    MulNext(q, d);
    QuotientTimes(m as real, d as real);
    ProductAsReal(q, d);
    ProductAsReal(q + 1, d);
    Cancel(q as real, x, d as real);
    CancelLess(x, (q + 1) as real, d as real);
    Cancel(0.0, x, d as real);
  }

  lemma QuotientTimes(m: real, d: real)
    requires d > 0.0
    ensures m / d * d == m
  {
  }

  lemma ProductAsReal(q: nat, d: nat)
    ensures q as real * d as real == (q * d) as real
  {
  }

  lemma ProductPositive(u: real, d: real)
    requires u > 0.0 && d > 0.0
    ensures u * d > 0.0
  {
  }

  lemma MinusTimes(x: real, y: real, d: real)
    ensures (x - y) * d == x * d - y * d
  {
  }

  /** A positive factor on both sides of a comparison can be dropped. */
  lemma Cancel(x: real, y: real, d: real)
    requires d > 0.0 && x * d <= y * d
    ensures x <= y
  {
    if x > y {
      ProductPositive(x - y, d);
      MinusTimes(x, y, d);
    }
  }

  lemma CancelLess(x: real, y: real, d: real)
    requires d > 0.0 && x * d < y * d
    ensures x < y
  {
    if x > y {
      ProductPositive(x - y, d);
      MinusTimes(x, y, d);
    }
  }

  /** A normal number's magnitude lies between two powers of two, and so does its integer part. */
  lemma IntPartBounds(sig: nat, e: int, s: nat)
    requires Pow2(s) <= sig < Pow2(s + 1) && e >= 0
    ensures Pow2(e) <= IntPart(sig, e, s) < Pow2(e + 1)
  {
    hide Pow2;
    if e < s {
      Pow2Add(e, s - e);
      Pow2Add(e + 1, s - e);
      DivBounds(sig, Pow2(e), Pow2(e + 1), Pow2(s - e));
    } else {
      Pow2Add(s, e - s);
      Pow2Add(s + 1, e - s);
      MulMono(Pow2(s), sig, Pow2(e - s));
      MulLess(sig, Pow2(s + 1), Pow2(e - s));
    }
  }

  lemma DivBounds(m: nat, lo: nat, hi: nat, d: nat)
    requires d > 0 && lo * d <= m < hi * d
    ensures lo <= m / d < hi
  {
    var q := m / d;
    DivMod(m, d);
    MulMono(q + 1, lo, d);
    MulMono(hi, q, d);
    MulNext(q, d);
  }

  /** The integer part of a scaled number. */
  lemma FloorScale(m: nat, e: int, s: nat)
    requires e >= 0
    ensures Scale(m, e - s) >= 0.0 && Scale(m, e - s).Floor == IntPart(m, e, s)
  {
    if e < s {
      FloorDiv(m, Pow2(s - e));
    }
  }

  /** Numbers below one have no integer part. */
  lemma ScaleBelowOne(m: nat, k: nat)
    requires m < Pow2(k)
    ensures Scale(m, 0 - k) >= 0.0 && Scale(m, 0 - k).Floor == 0
  {
    if k > 0 {
      FloorDiv(m, Pow2(k));
      SmallMod(m, Pow2(k));
    }
  }

  /** What the conversion does to an integer part: below 2^127 nothing, from 2^128 on it saturates,
      and in between the result wraps around. */
  function Convert(t: int): int {
    if INT_MIN < t <= INT_MAX then t
    else if t >= 0x1_0000_0000_0000_0000_0000_0000_0000_0000 then INT_MAX
    else if t <= -0x1_0000_0000_0000_0000_0000_0000_0000_0000 then INT_MIN
    else if t > 0 then Wrap(t) else Wrap(-Wrap(-t))
  }

  ghost predicate Sound(fmt: Format) {
    0 < fmt.sigBits <= 127 && 0 < fmt.expBits && 0 < fmt.bias
  }

  /** The parameters of table 3.5 of IEEE 754-2008. */
  lemma FormatsSound()
    ensures Sound(BINARY64) && BINARY64.width == 64 && BINARY64.bias == 1023 && BINARY64.maxExponent == 2047
    ensures Sound(BINARY128) && BINARY128.width == 128 && BINARY128.bias == 16383 && BINARY128.maxExponent == 32767
  {
    assert Pow2(8) == 256;
    Pow2Add(8, 3);
    Pow2Add(8, 7);
    assert Pow2(3) == 8 && Pow2(7) == 128;
  }

  /** The integer part of the encoded magnitude, from the fields. */
  lemma MagnitudeParts(fmt: Format, a: nat)
    requires Sound(fmt)
    ensures Magnitude(fmt, a) >= 0.0
    ensures Magnitude(fmt, a).Floor
         == IntPart(Pow2(fmt.sigBits) + TrailingBits(fmt, a), ExponentField(fmt, a) - fmt.bias, fmt.sigBits)
  {
    hide Pow2, Low, Shr, Scale;
    var e, m, s := ExponentField(fmt, a), TrailingBits(fmt, a), fmt.sigBits;
    LowBound(a, s);
    var exponent := e - fmt.bias;
    if exponent >= 0 {
      FloorScale(Pow2(s) + m, exponent, s);
    } else if e == 0 {
      SubnormalBelowOne(m, s, fmt.bias);
    } else {
      NormalBelowOne(m, s, exponent);
    }
  }

  lemma SubnormalBelowOne(m: nat, s: nat, bias: nat)
    requires m < Pow2(s) && bias > 0
    ensures Scale(m, 1 - bias - s) >= 0.0 && Scale(m, 1 - bias - s).Floor == 0
  {
    Pow2Mono(s, bias + s - 1);
    ScaleBelowOne(m, bias + s - 1);
  }

  lemma NormalBelowOne(m: nat, s: nat, exponent: int)
    requires m < Pow2(s) && exponent < 0
    ensures Scale(Pow2(s) + m, exponent - s) >= 0.0 && Scale(Pow2(s) + m, exponent - s).Floor == 0
  {
    Pow2Mono(s + 1, s - exponent);
    ScaleBelowOne(Pow2(s) + m, s - exponent);
  }

  lemma PowersOf128()
    ensures Pow2(127) == 0x8000_0000_0000_0000_0000_0000_0000_0000
    ensures Pow2(128) == 0x1_0000_0000_0000_0000_0000_0000_0000_0000
  {
    Pow2At64();
    Pow2Add(64, 64);
    assert Pow2(128) == 2 * Pow2(127);
  }

  function Signed(t: int, negative: bool): int {
    if negative then -t else t
  }

  lemma TruncateSigned(m: real, negative: bool)
    requires m >= 0.0
    ensures Truncate(if negative then -m else m) == Signed(m.Floor, negative)
  {
  }

  /** The three ranges of the exponent are three ranges of the integer part. */
  lemma ConvertByExponent(t: nat, e: int, negative: bool)
    requires if e < 0 then t == 0 else Pow2(e) <= t < Pow2(e + 1)
    ensures Convert(Signed(t, negative)) ==
            if e < 127 then Signed(t, negative)
            else if e >= 128 then (if negative then INT_MIN else INT_MAX)
            else Wrap(Signed(Wrap(t), negative))
    ensures e < 127 ==> t <= INT_MAX
  {
    PowersOf128();
    hide Pow2, Wrap;
    if 0 <= e < 127 {
      Pow2Mono(e + 1, 127);
    } else if e >= 128 {
      Pow2Mono(128, e);
    }
    WrapNegated(t);
  }

  lemma WrapNegated(t: int)
    ensures Wrap(Wrap(t)) == Wrap(t) && (0 <= t <= INT_MAX ==> Wrap(t) == t && Wrap(-t) == -t)
  {
    hide Wrap;
    WrapSmall(Wrap(t));
    if 0 <= t <= INT_MAX {
      WrapSmall(t);
      WrapSmall(-t);
    }
  }

  /** What fits is not wrapped. */
  lemma WrapSmall(x: int)
    requires INT_MIN <= x <= INT_MAX
    ensures Wrap(x) == x
  {
    if x >= 0 {
      SmallMod(x, 0x1_0000_0000_0000_0000_0000_0000_0000_0000);
    } else {
      DivModUnique(x, 0x1_0000_0000_0000_0000_0000_0000_0000_0000, -1, x + 0x1_0000_0000_0000_0000_0000_0000_0000_0000);
    }
  }

  lemma SignificandNormal(fmt: Format, a: nat)
    requires Sound(fmt)
    ensures Pow2(fmt.sigBits) <= Significand(fmt, a) < Pow2(fmt.sigBits + 1)
  {
    hide And, Or, Low;
    FieldsRead(fmt, a);
    LowBound(a, fmt.sigBits);
  }

  /** The conversion from the integer part of the pattern's magnitude. */
  lemma FixByIntPart(fmt: Format, a: nat)
    requires Sound(fmt)
    ensures var t := IntPart(Significand(fmt, a), Exponent(fmt, a), fmt.sigBits);
            Fix(fmt, a) == Convert(Signed(t, Negative(fmt, a)))
  {
    hide Significand, Exponent, Negative, Shr, Pow2, Wrap, Convert;
    var e, sig, s, negative := Exponent(fmt, a), Significand(fmt, a), fmt.sigBits, Negative(fmt, a);
    if e >= 0 {
      SignificandNormal(fmt, a);
      IntPartBounds(sig, e, s);
    }
    var t := IntPart(sig, e, s);
    ConvertByExponent(t, e, negative);
    WrapNegated(t);
  }

  /** The conversion of a finite pattern is determined by the number it encodes. */
  lemma FixIsConversion(fmt: Format, a: nat)
    requires Sound(fmt) && Finite(fmt, a)
    ensures Fix(fmt, a) == Convert(Truncate(Value(fmt, a)))
  {
    hide Fix, Significand, Exponent, Negative, Shr, Low, Pow2, Magnitude, Convert, Truncate, IntPart;
    FieldsRead(fmt, a);
    FixByIntPart(fmt, a);
    MagnitudeParts(fmt, a);
    TruncateSigned(Magnitude(fmt, a), Negative(fmt, a));
  }

  // ----- the main results -----

  /** For a finite pattern the result is the number truncated toward zero and saturated, exactly
      when the exponent is not 127 or the number is -2^127. */
  lemma TruncatesExactly(fmt: Format, a: nat)
    requires Sound(fmt) && Finite(fmt, a)
    ensures Fix(fmt, a) == Saturate(Truncate(Value(fmt, a))) <==>
            Exponent(fmt, a) != 127 || (Negative(fmt, a) && TrailingBits(fmt, a) == 0)
  {
    hide Fix, Shr, Low, Pow2, Magnitude, Truncate, IntPart, Exponent, Negative, Significand, Convert, Saturate;
    FixIsConversion(fmt, a);
    FieldsRead(fmt, a);
    MagnitudeParts(fmt, a);
    TruncateSigned(Magnitude(fmt, a), Negative(fmt, a));
    IntPartRange(fmt, a);
    ConvertSaturates(IntPart(Significand(fmt, a), Exponent(fmt, a), fmt.sigBits), Negative(fmt, a));
  }

  /** Wrapping gives the right answer for one integer part only. */
  lemma ConvertSaturates(t: nat, negative: bool)
    ensures Convert(Signed(t, negative)) == Saturate(Signed(t, negative)) <==>
            !(INT_MAX < t < 0x1_0000_0000_0000_0000_0000_0000_0000_0000) || (negative && t == INT_MAX + 1)
  {
    hide Wrap;
    if INT_MAX < t < 0x1_0000_0000_0000_0000_0000_0000_0000_0000 {
      var left := 0x1_0000_0000_0000_0000_0000_0000_0000_0000 - t;
      WrapBig(t);
      if t == INT_MAX + 1 {
        WrapBig(left);
      } else {
        WrapSmall(left);
      }
    }
  }

  /** What does not fit becomes negative. */
  lemma WrapBig(x: int)
    requires INT_MAX < x < 0x1_0000_0000_0000_0000_0000_0000_0000_0000
    ensures Wrap(x) == x - 0x1_0000_0000_0000_0000_0000_0000_0000_0000
  {
    SmallMod(x, 0x1_0000_0000_0000_0000_0000_0000_0000_0000);
  }

  /** Exponent 127 is where the integer part no longer fits, and -2^127 is the one value there that does. */
  lemma IntPartRange(fmt: Format, a: nat)
    requires Sound(fmt)
    ensures var t := IntPart(Significand(fmt, a), Exponent(fmt, a), fmt.sigBits);
            && (Exponent(fmt, a) == 127 <==> INT_MAX < t < 0x1_0000_0000_0000_0000_0000_0000_0000_0000)
            && (Exponent(fmt, a) == 127 ==> (t == INT_MAX + 1 <==> TrailingBits(fmt, a) == 0))
  {
    hide And, Or, Low, Pow2;
    var e, sig, s := Exponent(fmt, a), Significand(fmt, a), fmt.sigBits;
    PowersOf128();
    if e >= 0 {
      SignificandNormal(fmt, a);
      IntPartBounds(sig, e, s);
      if e < 127 {
        Pow2Mono(e + 1, 127);
      } else if e >= 128 {
        Pow2Mono(128, e);
      } else {
        FieldsRead(fmt, a);
        Pow2Add(s, 127 - s);
        MulEqual(TrailingBits(fmt, a), Pow2(s), Pow2(127 - s));
      }
    }
  }

  lemma MulEqual(m: nat, p: nat, k: nat)
    requires k > 0
    ensures (p + m) * k == p * k <==> m == 0
  {
    assert (p + m) * k == p * k + m * k;
    assert m > 0 ==> m * k > 0;
  }

  /** The left shift and the product stay within 128 bits exactly below exponent 127. */
  lemma ShiftFits(fmt: Format, a: nat)
    requires Sound(fmt) && fmt.sigBits <= Exponent(fmt, a) < 128
    ensures Significand(fmt, a) * Pow2(Exponent(fmt, a) - fmt.sigBits) <= INT_MAX <==> Exponent(fmt, a) < 127
  {
    hide And, Or, Low, Pow2;
    var e, sig, s := Exponent(fmt, a), Significand(fmt, a), fmt.sigBits;
    SignificandNormal(fmt, a);
    IntPartBounds(sig, e, s);
    ConvertByExponent(IntPart(sig, e, s), e, false);
    PowersOf128();
  }

  /** From exponent 128 on, infinities and NaNs included, the result is the extreme of the sign. */
  lemma Saturates(fmt: Format, a: nat)
    requires Sound(fmt) && (Exponent(fmt, a) >= 128 || (Known(fmt) && !Finite(fmt, a)))
    ensures Fix(fmt, a) == if Negative(fmt, a) then INT_MIN else INT_MAX
  {
    hide And, Or, Low, Pow2;
    FieldsRead(fmt, a);
    if Known(fmt) {
      FieldMaximum(fmt);
    }
  }

  lemma FieldMaximum(fmt: Format)
    requires Known(fmt)
    ensures fmt.maxExponent - fmt.bias >= 128
  {
    FormatsSound();
  }

  /** Equal numbers convert alike, whichever of the two formats holds them. */
  lemma ConversionsAgree(a: nat, b: nat)
    requires Finite(BINARY64, a) && Finite(BINARY128, b) && Value(BINARY64, a) == Value(BINARY128, b)
    ensures Fix(BINARY64, a) == Fix(BINARY128, b)
  {
    hide Fix, Value, Finite;
    FormatsSound();
    FixIsConversion(BINARY64, a);
    FixIsConversion(BINARY128, b);
  }

  /** The pattern with the other sign. */
  function Flip(fmt: Format, a: nat): nat {
    var s := Pow2(fmt.width - 1);
    DivMod(a, s);
    MulMono(1, a / s, s);
    if a / s % 2 == 1 then a - s else a + s
  }

  lemma FlipFields(fmt: Format, a: nat)
    requires Sound(fmt)
    ensures Low(Flip(fmt, a), fmt.width - 1) == Low(a, fmt.width - 1)
    ensures Flip(fmt, a) / Pow2(fmt.width - 1) % 2 != a / Pow2(fmt.width - 1) % 2
  {
    hide Pow2;
    var p := Pow2(fmt.width - 1);
    var q, r := a / p, a % p;
    DivMod(a, p);
    MulMono(1, q, p);
    if q % 2 == 1 {
      MulNext(q - 1, p);
      DivModUnique(a - p, p, q - 1, r);
    } else {
      MulNext(q, p);
      DivModUnique(a + p, p, q + 1, r);
    }
  }

  /** Below 2^127 the conversion is odd. */
  lemma OddBelow127(fmt: Format, a: nat)
    requires Sound(fmt) && Exponent(fmt, a) < 127
    ensures Fix(fmt, Flip(fmt, a)) == -Fix(fmt, a)
  {
    var b := Flip(fmt, a);
    hide And, Or, Low, Shr, Pow2, IntPart, Fix, Flip, Convert;
    FlipFields(fmt, a);
    FieldsRead(fmt, a);
    FieldsRead(fmt, b);
    assert Significand(fmt, b) == Significand(fmt, a);
    FixByIntPart(fmt, a);
    FixByIntPart(fmt, b);
    ConvertIntPart(fmt, a, false);
    ConvertIntPart(fmt, a, true);
  }

  lemma ConvertIntPart(fmt: Format, a: nat, negative: bool)
    requires Sound(fmt) && Exponent(fmt, a) < 127
    ensures var t := IntPart(Significand(fmt, a), Exponent(fmt, a), fmt.sigBits);
            Convert(Signed(t, negative)) == Signed(t, negative)
  {
    hide Significand, Exponent, Convert, Pow2;
    var e, sig, s := Exponent(fmt, a), Significand(fmt, a), fmt.sigBits;
    if e >= 0 {
      SignificandNormal(fmt, a);
      IntPartBounds(sig, e, s);
    }
    ConvertByExponent(IntPart(sig, e, s), e, negative);
  }

  lemma TruncateMonotone(x: real, y: real)
    requires x <= y
    ensures Truncate(x) <= Truncate(y)
  {
  }

  ghost predicate IsNan(fmt: Format, a: nat) {
    !Finite(fmt, a) && TrailingBits(fmt, a) != 0
  }

  /** The order of the numbers and infinities. */
  ghost predicate AtMost(fmt: Format, a: nat, b: nat) {
    if !Finite(fmt, a) then Negative(fmt, a) || (!Finite(fmt, b) && !Negative(fmt, b))
    else if !Finite(fmt, b) then !Negative(fmt, b)
    else Value(fmt, a) <= Value(fmt, b)
  }

  /** The conversion keeps the order of everything but NaNs, outside exponent 127. */
  lemma FixMonotone(fmt: Format, a: nat, b: nat)
    requires Known(fmt) && !IsNan(fmt, a) && !IsNan(fmt, b)
    requires Exponent(fmt, a) != 127 && Exponent(fmt, b) != 127 && AtMost(fmt, a, b)
    ensures Fix(fmt, a) <= Fix(fmt, b)
  {
    hide Exponent, Negative, Finite, Value, Truncate, Fix;
    FormatsSound();
    FixInRange(fmt, a);
    FixInRange(fmt, b);
    if Finite(fmt, a) && Finite(fmt, b) {
      TruncatesExactly(fmt, a);
      TruncatesExactly(fmt, b);
      TruncateMonotone(Value(fmt, a), Value(fmt, b));
    } else {
      if !Finite(fmt, a) { Saturates(fmt, a); }
      if !Finite(fmt, b) { Saturates(fmt, b); }
    }
  }

  lemma FixInRange(fmt: Format, a: nat)
    requires Sound(fmt)
    ensures INT_MIN <= Fix(fmt, a) <= INT_MAX
  {
    hide Significand, Exponent, Negative, Wrap, Fix, IntPart, Pow2;
    FixByIntPart(fmt, a);
  }
}
