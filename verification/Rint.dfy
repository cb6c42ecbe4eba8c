/**
 * `rintDouble` and `rintFloat` of ghc-toolkit/boot-libs/base/cbits/primFloat.c: rounding to an
 * integral value, ties to even, by bit operations on the fields of an IEEE 754 number.
 */
module Rint {
  import opened Bits

  // ---------------------------------------------------------------------------
  // Values
  // ---------------------------------------------------------------------------

  type Word11 = w: nat | w < 0x800
  type Word20 = w: nat | w < 0x10_0000
  type Word8 = w: nat | w < 0x100
  type Word23 = w: nat | w < 0x80_0000

  /** `significand / 2^down`, for a `down` of either sign */
  function Scale(significand: nat, down: int): real {
    if down > 0 then significand as real / Pow2(down) as real
    else (significand * Pow2(-down)) as real
  }

  function Signed(negative: bool, magnitude: real): real {
    if negative then -magnitude else magnitude
  }

  /** The fields of a double; the 52 bits of the mantissa are split 20 to 32. */
  datatype Double = Double(negative: bool, exponent: Word11, mantissa0: Word20, mantissa1: Word32)
  {
    predicate Finite() { exponent < 0x7FF }

    /** The mantissa with its hidden bit, and the exponent of its lowest bit. */
    function Significand(): nat {
      mantissa0 * 0x1_0000_0000 + mantissa1 + (if exponent == 0 then 0 else 0x10_0000_0000_0000)
    }

    function Value(): real
      requires Finite()
    {
      Signed(negative, Scale(Significand(), 1075 - (if exponent == 0 then 1 else exponent)))
    }
  }

  datatype Float = Float(negative: bool, exponent: Word8, mantissa: Word23)
  {
    predicate Finite() { exponent < 0xFF }

    function Significand(): nat {
      mantissa + (if exponent == 0 then 0 else 0x80_0000)
    }

    function Value(): real
      requires Finite()
    {
      Signed(negative, Scale(Significand(), 150 - (if exponent == 0 then 1 else exponent)))
    }
  }

  const DOUBLE_ZERO := Double(false, 0, 0, 0)
  const FLOAT_ZERO := Float(false, 0, 0)

  function Abs(x: real): real {
    if x < 0.0 then -x else x
  }

  /** `q` is the integer nearest to `v`, the even one of two equally near. */
  ghost predicate Nearest(v: real, q: int) {
    Abs(v - q as real) < 0.5 || (Abs(v - q as real) == 0.5 && q % 2 == 0)
  }

  /** There is only one. */
  lemma NearestIsUnique(v: real, q: int, q': int)
    requires Nearest(v, q) && Nearest(v, q')
    ensures q == q'
  {
    assert Abs((q - q') as real) <= 1.0;
  }

  // ---------------------------------------------------------------------------
  // Rounding a significand
  // ---------------------------------------------------------------------------

  function Negated(negative: bool, q: nat): int {
    if negative then -(q as int) else q
  }

  /** `m / p` rounded to an integer, ties to even. */
  function RoundDiv(m: nat, p: nat): nat
    requires p > 0
  {
    var q, r := m / p, m % p;
    if 2 * r < p || (2 * r == p && q % 2 == 0) then q else q + 1
  }

  /** `m` rounded to a multiple of `p`. */
  function RoundTo(m: nat, p: nat): nat
    requires p > 0
  {
    RoundDiv(m, p) * p
  }

  lemma RoundDivIsNearest(m: nat, p: nat, negative: bool)
    requires p > 0
    ensures var q: int := RoundDiv(m, p);
      Nearest(Signed(negative, m as real / p as real), Negated(negative, q))
  {
    var q, r := m / p, m % p;
    var v := m as real / p as real;
    assert m == p * q + r;
    Fraction(v, p as real, q, r as real);
  }

  /** The fraction above the quotient, compared with one half. */
  lemma Fraction(v: real, p: real, q: int, r: real)
    requires p > 0.0 && v * p == p * (q as real) + r && 0.0 <= r < p
    ensures var f := v - q as real;
      0.0 <= f < 1.0 && (2.0 * r < p <==> f < 0.5) && (2.0 * r == p <==> f == 0.5)
  {
    var f := v - q as real;
    assert f * p == r;
    Compare(f, 0.0, p);
    Compare(f, 1.0, p);
    Compare(f, 0.5, p);
  }

  lemma Compare(x: real, y: real, p: real)
    requires p > 0.0
    ensures x < y <==> x * p < y * p
    ensures x == y <==> x * p == y * p
  {
    assert (x - y) * p == x * p - y * p;
    assert x - y > 0.0 ==> (x - y) * p > 0.0;
    assert x - y < 0.0 ==> (x - y) * p < 0.0;
  }

  /** A rounded significand is zero, keeps its hidden bit `top`, or is the next power of two. */
  lemma RoundedSignificand(m: nat, t: nat, top: nat, k: nat, p: nat)
    requires top == Pow2(t) && p == Pow2(k) && 1 <= k <= t + 1 && top <= m < 2 * top
    ensures RoundTo(m, p) == 0 || top <= RoundTo(m, p) <= 2 * top
  {
    hide Pow2, RoundDiv;
    if k == t + 1 {
      assert p == 2 * top by { Pow2Add(1, t); Pow2Small(); }
      Quotient(m, p, 0);
      RoundedBelow(m, p);
    } else {
      assert Pow2(t - k) * p == top by { Pow2Add(t - k, k); }
      Quotients(m, p, Pow2(t - k));
      RoundedAbove(m, p, Pow2(t - k));
    }
  }

  lemma RoundedBelow(m: nat, p: nat)
    requires p > 0 && m / p == 0
    ensures RoundDiv(m, p) <= 1
  {
  }

  lemma RoundedAbove(m: nat, p: nat, c: nat)
    requires p > 0 && c <= m / p < 2 * c
    ensures c * p <= RoundDiv(m, p) * p <= 2 * (c * p)
  {
    MulLe(c, RoundDiv(m, p), p);
    MulLe(RoundDiv(m, p), 2 * c, p);
  }

  lemma MulLe(x: nat, y: nat, p: nat)
    requires x <= y
    ensures x * p <= y * p
  {
  }

  lemma Quotient(m: nat, p: nat, q: nat)
    requires p > 0 && q * p <= m < (q + 1) * p
    ensures m / p == q
  {
    ModUnique(m, p, q, m - q * p);
  }

  lemma Quotients(m: nat, p: nat, c: nat)
    requires p > 0 && c * p <= m < 2 * (c * p)
    ensures c <= m / p < 2 * c
  {
    var q := m / p;
    assert (q + 1) * p == q * p + p && (2 * c) * p == 2 * (c * p);
    if q < c {
      MulLe(q + 1, c, p);
    } else if q >= 2 * c {
      MulLe(2 * c, q, p);
    }
  }

  lemma RealDiv(x: real, y: real, p: real)
    requires p > 0.0 && x == y * p
    ensures x / p == y
  {
  }

  /** A multiple of `2^k`, scaled down by `k`, is the quotient; also when written with a larger exponent. */
  lemma ScaleBack(q: nat, k: nat, p: nat)
    requires k > 0 && p == Pow2(k)
    ensures Scale(q * p, k) == q as real
  {
    RealDiv((q * p) as real, q as real, p as real);
  }

  lemma ScaleCarry(q: nat, k: nat, p: nat, top: nat)
    requires k > 0 && p == Pow2(k) && q * p == 2 * top
    ensures Scale(top, k - 1) == q as real
  {
    var h := Pow2(k - 1);
    assert q * p == 2 * (q * h);
    assert top == q * h;
    RealDiv((q * h) as real, q as real, h as real);
  }

  lemma ScaleDown(m: nat, k: nat)
    requires k > 0
    ensures Scale(m, k) == m as real / Pow2(k) as real
  {
  }

  lemma BelowHalf(m: real, p: real)
    requires 0.0 <= m && 2.0 * m < p
    ensures 0.0 <= m / p < 0.5
  {
    var v := m / p;
    assert v * p == m;
    Compare(v, 0.5, p);
    Compare(v, 0.0, p);
  }

  /** Below one half, everything rounds to zero. */
  lemma TinyIsZero(m: nat, k: nat, negative: bool)
    requires k > 0 && 2 * m < Pow2(k)
    ensures Nearest(Signed(negative, Scale(m, k)), 0)
  {
    hide Scale, Pow2;
    ScaleDown(m, k);
    BelowHalf(m as real, Pow2(k) as real);
  }

  /** What the fields mean: the numbers one and minus one and a half. */
  lemma FieldMeaning(j: nat, k: nat)
    requires j == 23 && k == 52
    ensures Float(false, 127, 0).Value() == 1.0 && Double(false, 1023, 0, 0).Value() == 1.0
    ensures Float(true, 127, 0x40_0000).Value() == -1.5 && Double(true, 1023, 0x8_0000, 0).Value() == -1.5
  {
    assert Pow2(j) == 0x80_0000 by { Pow2Large(); Pow2Step(24); }
    assert Pow2(k) == 0x10_0000_0000_0000 by { DoublePowers(); }
    hide Pow2, Scale;
    ScaleDown(0x80_0000, j);
    ScaleDown(0xC0_0000, j);
    ScaleDown(0x10_0000_0000_0000, k);
    ScaleDown(0x18_0000_0000_0000, k);
  }

  /** And the smallest positive ones. */
  lemma SmallestPositive(j: nat, k: nat)
    requires j == 149 && k == 1074
    ensures Float(false, 0, 1).Value() == 1.0 / Pow2(j) as real
    ensures Double(false, 0, 0, 1).Value() == 1.0 / Pow2(k) as real
  {
    hide Pow2, Scale;
    ScaleDown(1, j);
    ScaleDown(1, k);
  }

  // ---------------------------------------------------------------------------
  // Floats
  // ---------------------------------------------------------------------------

  /** The result is the nearest integral value; a zero is always the positive one. */
  ghost predicate RoundsFloat(f: Float, r: Float)
    requires f.Finite()
  {
    r.Finite() && exists q: int ::
      && Nearest(f.Value(), q) && r.Value() == q as real
      && (q == 0 ==> !r.negative && r.exponent == 0 && r.mantissa == 0) && (q != 0 ==> r.negative == f.negative)
  }

  lemma LargeFloat(f: Float)
    requires f.Finite() && f.exponent > 149
    ensures RoundsFloat(f, f)
  {
    var n := f.Significand() * Pow2(f.exponent - 150);
    Positive(f.Significand(), Pow2(f.exponent - 150));
    var q: int := if f.negative then -n else n;
    assert Nearest(f.Value(), q) && f.Value() == q as real;
  }

  lemma Positive(x: nat, y: nat)
    requires x > 0 && y > 0
    ensures x * y > 0
  {
  }

  lemma ZeroValues()
    ensures FLOAT_ZERO.Value() == 0.0 && DOUBLE_ZERO.Value() == 0.0
  {
    ScaleZero(149);
    ScaleZero(1074);
  }

  lemma ScaleZero(k: nat)
    ensures Scale(0, k) == 0.0
  {
    RealDiv(0.0, 0.0, Pow2(k) as real);
  }

  lemma SmallFloat(f: Float)
    requires f.exponent < 126
    ensures RoundsFloat(f, FLOAT_ZERO)
  {
    var down := 150 - (if f.exponent == 0 then 1 else f.exponent);
    assert 2 * f.Significand() < Pow2(down) by {
      Pow2Large();
      Pow2Add(1, 24);
      Pow2Monotone(25, down);
    }
    TinyIsZero(f.Significand(), down, f.negative);
    ZeroValues();
    hide Scale;
    assert Nearest(f.Value(), 0);
  }

  /** The fields that hold a significand rounded to `q * 2^k`. */
  lemma MiddleFloat(f: Float, k: nat, p: nat, r: Float)
    requires 126 <= f.exponent <= 149 && k == 150 - f.exponent && p == Pow2(k)
    requires var s := RoundTo(f.Significand(), p);
      if s == 0 then r == FLOAT_ZERO
      else if s == 0x100_0000 then r == Float(f.negative, f.exponent + 1, 0)
      else 0x80_0000 <= s < 0x100_0000 && r == Float(f.negative, f.exponent, s - 0x80_0000)
    ensures RoundsFloat(f, r)
  {
    hide RoundDiv, Pow2, Nearest, Scale;
    var q := RoundDiv(f.Significand(), p);
    assert Nearest(f.Value(), Negated(f.negative, q)) by {
      RoundDivIsNearest(f.Significand(), p, f.negative);
      ScaleDown(f.Significand(), k);
    }
    assert q * p == 0 <==> q == 0 by { ProductZero(q, p); }
    if q == 0 {
      ZeroValues();
    } else if q * p == 0x100_0000 {
      ScaleCarry(q, k, p, 0x80_0000);
    } else {
      ScaleBack(q, k, p);
    }
    assert r.Value() == Negated(f.negative, q) as real;
  }

  lemma ProductZero(q: nat, p: nat)
    requires p > 0
    ensures q * p == 0 <==> q == 0
  {
  }

  // ---------------------------------------------------------------------------
  // The bit operations
  // ---------------------------------------------------------------------------

  const FLT_HIDDEN := 0x80_0000
  const FLT_POWER2 := 0x100_0000
  const DBL_HIDDEN := 0x10_0000
  const DBL_POWER2 := 0x20_0000
  const LTOP_BIT := 0x8000_0000


  /** What the masks compute. */
  lemma MaskFields(m: nat, k: nat, p: nat)
    requires p == Pow2(k)
    ensures And(m, p - 1) == m % p && Xor(m, m % p) == m / p * p == m - m % p
    ensures And(m / p * p, p) == 0 <==> m / p % 2 == 0
  {
    hide And, Xor, Pow2;
    AndLowMask(m, k, p);
    XorClearsLow(m, k, p);
    AndBit(k, p, 0, m / p);
    assert p * 0 == 0 && p * 1 == p;
  }

  /** The fraction and the truncated mantissa give the rounded one. */
  lemma MaskStep(m: nat, k: nat, p: nat) returns (frac: nat, mant: nat)
    requires p == Pow2(k)
    ensures And(m, p - 1) == frac < p && Xor(m, frac) == mant == m - frac
    ensures RoundTo(m, p) == if RoundsDown(frac, mant, p) then mant else mant + p
  {
    hide And, Xor, Pow2;
    frac, mant := m % p, m / p * p;
    MaskFields(m, k, p);
    assert (m / p + 1) * p == m / p * p + p;
  }

  /** Below one half, or at one half under an even integer part. */
  predicate RoundsDown(frac: nat, mant: nat, p: nat) {
    2 * frac < p || (2 * frac == p && And(mant, p) == 0)
  }

  /** `1 << (k - 1)`, the bit for one half. */
  lemma HalfBit(k: nat)
    requires 1 <= k <= 32
    ensures 2 * Shl(1, k - 1, 32) == Pow2(k)
    ensures if k == 32 then Pow2(k) == 0x1_0000_0000 else Pow2(k) < 0x1_0000_0000
  {
    hide Pow2;
    Pow2Large();
    Pow2Monotone(k - 1, 31);
    Pow2Step(k);
    if k < 32 {
      Pow2Monotone(k, 31);
    }
  }

  /** `rintFloat`. */
  method RintFloat(f: Float) returns (r: Float)
    ensures !f.Finite() || f.exponent > 149 ==> r == f
    ensures f.Finite() ==> RoundsFloat(f, r)
  {
    hide Shl, And, Or, Xor, Pow2, RoundsFloat, Nearest, Scale, RoundTo;
    if f.exponent > 149 {
      if f.Finite() { LargeFloat(f); }
      return f;
    }
    if f.exponent < 126 {
      SmallFloat(f);
      return FLOAT_ZERO;
    }
    ghost var k := 150 - f.exponent;
    ghost var p := Pow2(k);
    HalfBit(k);
    var half := Shl(1, 149 - f.exponent, 32);
    var mask := 2 * half - 1;
    FloatHidden(f.mantissa);
    var mant := Or(f.mantissa, FLT_HIDDEN);
    RoundedFloat(f.Significand(), k, p);
    ghost var frac', mant' := MaskStep(f.Significand(), k, p);
    var frac := And(mant, mask);
    mant := Xor(mant, frac);
    if frac < half || (frac == half && And(mant, 2 * half) == 0) {
      if mant == 0 {
        MiddleFloat(f, k, p, FLOAT_ZERO);
        return FLOAT_ZERO;
      } else {
        FloatHidden(mant - FLT_HIDDEN);
        r := f.(mantissa := Xor(mant, FLT_HIDDEN));
        MiddleFloat(f, k, p, r);
      }
    } else {
      mant := mant + 2 * half;
      if mant == FLT_POWER2 {
        r := f.(mantissa := 0, exponent := f.exponent + 1);
        MiddleFloat(f, k, p, r);
      } else {
        FloatHidden(mant - FLT_HIDDEN);
        r := f.(mantissa := Xor(mant, FLT_HIDDEN));
        MiddleFloat(f, k, p, r);
      }
    }
  }

  lemma FloatHidden(x: nat)
    requires x < FLT_HIDDEN
    ensures Or(x, FLT_HIDDEN) == x + FLT_HIDDEN && Xor(x + FLT_HIDDEN, FLT_HIDDEN) == x
  {
    hide And, Or, Xor;
    assert FLT_HIDDEN == Pow2(23) by { Pow2Large(); }
    HiddenBit(x, 23, FLT_HIDDEN);
  }

  lemma RoundedFloat(m: nat, k: nat, p: nat)
    requires 1 <= k <= 24 && p == Pow2(k) && FLT_HIDDEN <= m < FLT_POWER2
    ensures RoundTo(m, p) == 0 || FLT_HIDDEN <= RoundTo(m, p) <= FLT_POWER2
  {
    assert FLT_HIDDEN == Pow2(23) by { Pow2Large(); }
    RoundedSignificand(m, 23, FLT_HIDDEN, k, p);
  }

  // ---------------------------------------------------------------------------
  // Doubles
  // ---------------------------------------------------------------------------

  ghost predicate RoundsDouble(d: Double, r: Double)
    requires d.Finite()
  {
    r.Finite() && exists q: int ::
      && Nearest(d.Value(), q) && r.Value() == q as real
      && (q == 0 ==> !r.negative && r.exponent == 0 && r.mantissa0 == 0 && r.mantissa1 == 0)
      && (q != 0 ==> r.negative == d.negative)
  }

  lemma LargeDouble(d: Double)
    requires d.Finite() && d.exponent > 1074
    ensures RoundsDouble(d, d)
  {
    var n := d.Significand() * Pow2(d.exponent - 1075);
    Positive(d.Significand(), Pow2(d.exponent - 1075));
    var q: int := Negated(d.negative, n);
    assert Nearest(d.Value(), q) && d.Value() == q as real;
  }

  lemma SmallDouble(d: Double)
    requires d.exponent < 1022
    ensures RoundsDouble(d, DOUBLE_ZERO)
  {
    var down := 1075 - (if d.exponent == 0 then 1 else d.exponent);
    assert 2 * d.Significand() < Pow2(down) by {
      hide Pow2;
      DoublePowers();
      Pow2Monotone(54, down);
    }
    TinyIsZero(d.Significand(), down, d.negative);
    ZeroValues();
    hide Scale;
    assert Nearest(d.Value(), 0);
  }

  lemma DoublePowers()
    ensures Pow2(52) == 0x10_0000_0000_0000 && Pow2(54) == 0x40_0000_0000_0000 && Pow2(32) == 0x1_0000_0000
  {
    hide Pow2;
    Pow2Large();
    Pow2Small();
    Pow2Add(48, 4);
    Pow2Add(48, 6);
  }

  lemma MiddleDouble(d: Double, k: nat, p: nat, r: Double)
    requires 1022 <= d.exponent <= 1074 && k == 1075 - d.exponent && p == Pow2(k)
    requires var s := RoundTo(d.Significand(), p);
      if s == 0 then r == DOUBLE_ZERO
      else if s == 0x20_0000_0000_0000 then r == Double(d.negative, d.exponent + 1, 0, 0)
      else r == Double(d.negative, d.exponent, r.mantissa0, r.mantissa1) && r.Significand() == s
    ensures RoundsDouble(d, r)
  {
    hide RoundDiv, Pow2, Nearest, Scale;
    var q := RoundDiv(d.Significand(), p);
    assert Nearest(d.Value(), Negated(d.negative, q)) by {
      RoundDivIsNearest(d.Significand(), p, d.negative);
      ScaleDown(d.Significand(), k);
    }
    assert q * p == 0 <==> q == 0 by { ProductZero(q, p); }
    if q == 0 {
      ZeroValues();
    } else if q * p == 0x20_0000_0000_0000 {
      ScaleCarry(q, k, p, 0x10_0000_0000_0000);
    } else {
      ScaleBack(q, k, p);
    }
    assert r.Value() == Negated(d.negative, q) as real;
  }

  lemma RoundedDouble(m: nat, k: nat, p: nat)
    requires 1 <= k <= 53 && p == Pow2(k) && 0x10_0000_0000_0000 <= m < 0x20_0000_0000_0000
    ensures RoundTo(m, p) == 0 || 0x10_0000_0000_0000 <= RoundTo(m, p) <= 0x20_0000_0000_0000
  {
    DoublePowers();
    RoundedSignificand(m, 52, 0x10_0000_0000_0000, k, p);
  }

  /** A fraction that reaches into the high word: the low word only breaks ties. */
  lemma HighWord(high: nat, low: Word32, j: nat, p: nat) returns (frac: nat, mant: nat)
    requires j > 0 && p == Pow2(j)
    ensures And(high, p - 1) == frac < p && Xor(high, frac) == mant == high - frac
    ensures Pow2(j + 32) == p * 0x1_0000_0000
    ensures RoundTo(high * 0x1_0000_0000 + low, p * 0x1_0000_0000) ==
      if 2 * frac < p || (2 * frac == p && low == 0 && And(mant, p) == 0) then mant * 0x1_0000_0000
      else (mant + p) * 0x1_0000_0000
  {
    hide And, Xor, Pow2;
    frac, mant := high % p, high / p * p;
    MaskFields(high, j, p);
    Pow2Add(j, 32);
    Pow2Large();
    var q := high / p;
    Distribute(q, p, frac);
    Pow2Step(j);
    ModUnique(high * 0x1_0000_0000 + low, p * 0x1_0000_0000, q, frac * 0x1_0000_0000 + low);
  }

  lemma Distribute(q: nat, p: nat, r: nat)
    ensures (q * p + r) * 0x1_0000_0000 == q * (p * 0x1_0000_0000) + r * 0x1_0000_0000
    ensures (q + 1) * (p * 0x1_0000_0000) == (q * p + p) * 0x1_0000_0000
    ensures q * (p * 0x1_0000_0000) == (q * p) * 0x1_0000_0000
  {
  }

  /** A fraction inside the low word: only a mask of the whole word takes the tie bit from the high one. */
  lemma LowWord(high: nat, low: Word32, k: nat, p: nat) returns (frac: nat, mant: nat)
    requires 1 <= k <= 32 && p == Pow2(k)
    ensures And(low, p - 1) == frac < p && Xor(low, frac) == mant == low - frac
    ensures mant + p <= 0x1_0000_0000
    ensures RoundTo(high * 0x1_0000_0000 + low, p) ==
      high * 0x1_0000_0000 +
      (if 2 * frac < p || (2 * frac == p && (if k == 32 then high % 2 else And(mant, p)) == 0) then mant else mant + p)
  {
    hide And, Xor, Pow2;
    frac, mant := low % p, low / p * p;
    MaskFields(low, k, p);
    var c := Pow2(32 - k);
    assert c * p == 0x1_0000_0000 by { Pow2Add(32 - k, k); Pow2Large(); }
    var q := low / p;
    assert q < c && mant + p <= 0x1_0000_0000 by { UnitsFit(q, c, p, low); }
    MulAssoc(high, c, p);
    assert (high * c + q) * p == high * 0x1_0000_0000 + mant;
    assert (high * c + q + 1) * p == high * 0x1_0000_0000 + mant + p;
    ModUnique(high * 0x1_0000_0000 + low, p, high * c + q, frac);
    TieBit(high, c, q, k);
  }

  lemma UnitsFit(q: nat, c: nat, p: nat, low: nat)
    requires q * p <= low < c * p
    ensures q < c && q * p + p <= c * p
  {
    assert q >= c ==> q * p >= c * p;
    assert (q + 1) * p == q * p + p;
    assert q + 1 <= c ==> (q + 1) * p <= c * p;
  }

  lemma TieBit(high: nat, c: nat, q: nat, k: nat)
    requires 1 <= k <= 32 && c == Pow2(32 - k) && q < c
    ensures (high * c + q) % 2 == if k == 32 then high % 2 else q % 2
  {
    if k < 32 {
      Pow2Step(32 - k);
      hide Pow2;
      var h := high * Pow2(31 - k);
      assert high * c == 2 * h;
      ModUnique(high * c + q, 2, h + q / 2, q % 2);
    } else {
      assert c == 1;
    }
  }

  lemma DoubleHidden(x: nat)
    requires x < DBL_HIDDEN
    ensures Or(x, DBL_HIDDEN) == x + DBL_HIDDEN && Xor(x + DBL_HIDDEN, DBL_HIDDEN) == x
  {
    hide And, Or, Xor;
    Pow2Small();
    HiddenBit(x, 20, DBL_HIDDEN);
  }

  lemma LowBit(x: nat)
    ensures And(x, 1) == x % 2
  {
    AndLowMask(x, 1, 2);
  }

  /** `rintDouble`. */
  method RintDouble(d: Double) returns (r: Double)
    ensures !d.Finite() || d.exponent > 1074 ==> r == d
    ensures d.Finite() ==> RoundsDouble(d, r)
  {
    hide Shl, And, Or, Xor, Pow2, RoundsDouble, Nearest, Scale, RoundTo;
    if d.exponent > 1074 {
      if d.Finite() { LargeDouble(d); }
      return d;
    }
    if d.exponent < 1022 {
      SmallDouble(d);
      return DOUBLE_ZERO;
    }
    if d.exponent < 1043 {
      r := RintHigh(d);
    } else {
      r := RintLow(d);
    }
  }

  /** The part of `rintDouble` for fractions that reach into the high word of the mantissa. */
  method RintHigh(d: Double) returns (r: Double)
    requires 1022 <= d.exponent < 1043
    ensures RoundsDouble(d, r)
  {
    hide Shl, And, Or, Xor, Pow2, RoundsDouble, Nearest, Scale, RoundTo;
    ghost var j := 1043 - d.exponent;
    ghost var p := Pow2(j);
    HalfBit(j);
    var half := Shl(1, 1042 - d.exponent, 32);
    var mask := 2 * half - 1;
    DoubleHidden(d.mantissa0);
    var mant := Or(d.mantissa0, DBL_HIDDEN);
    ghost var frac', mant' := HighWord(mant, d.mantissa1, j, p);
    RoundedDouble(d.Significand(), j + 32, p * 0x1_0000_0000);
    var frac := And(mant, mask);
    mant := Xor(mant, frac);
    if frac < half || (frac == half && d.mantissa1 == 0 && And(mant, 2 * half) == 0) {
      if mant == 0 {
        MiddleDouble(d, j + 32, p * 0x1_0000_0000, DOUBLE_ZERO);
        return DOUBLE_ZERO;
      }
      DoubleHidden(mant - DBL_HIDDEN);
      r := d.(mantissa0 := Xor(mant, DBL_HIDDEN), mantissa1 := 0);
      MiddleDouble(d, j + 32, p * 0x1_0000_0000, r);
    } else {
      r := d.(mantissa1 := 0);
      mant := mant + 2 * half;
      if mant == DBL_POWER2 {
        r := r.(mantissa0 := 0, exponent := r.exponent + 1);
        MiddleDouble(d, j + 32, p * 0x1_0000_0000, r);
        return r;
      }
      DoubleHidden(mant - DBL_HIDDEN);
      r := r.(mantissa0 := Xor(mant, DBL_HIDDEN));
      MiddleDouble(d, j + 32, p * 0x1_0000_0000, r);
    }
  }

  /** The part for fractions inside the low word. */
  method RintLow(d: Double) returns (r: Double)
    requires 1043 <= d.exponent <= 1074
    ensures RoundsDouble(d, r)
  {
    hide Shl, And, Or, Xor, Pow2, RoundsDouble, Nearest, Scale, RoundTo;
    ghost var k := 1075 - d.exponent;
    ghost var p := Pow2(k);
    HalfBit(k);
    var half := Shl(1, 1074 - d.exponent, 32);
    var mask := (2 * half + 0x1_0000_0000 - 1) % 0x1_0000_0000;
    var mant: Word32 := d.mantissa1;
    ghost var frac', mant' := LowWord(d.mantissa0 + DBL_HIDDEN, d.mantissa1, k, p);
    LowBit(d.mantissa0);
    var frac := And(mant, mask);
    mant := Xor(mant, frac);
    if frac < half || (frac == half
      && (if half == LTOP_BIT then And(d.mantissa0, 1) else And(mant, (2 * half) % 0x1_0000_0000)) == 0) {
      r := d.(mantissa1 := mant);
      LowResult(d, k, p, mant, r);
    } else {
      ghost var low := mant + p;
      mant := (mant + 2 * half) % 0x1_0000_0000;
      r := d.(mantissa1 := mant);
      if mant == 0 {
        mant := d.mantissa0 + 1;
        if mant == DBL_HIDDEN {
          r := r.(mantissa0 := 0, exponent := r.exponent + 1);
        } else {
          r := r.(mantissa0 := mant);
        }
      }
      LowResult(d, k, p, low, r);
    }
  }

  /** The fields when only the low word was rounded, to at most one unit above its range. */
  lemma LowResult(d: Double, k: nat, p: nat, low: nat, r: Double)
    requires 1043 <= d.exponent <= 1074 && k == 1075 - d.exponent && p == Pow2(k) && low <= 0x1_0000_0000
    requires RoundTo(d.Significand(), p) == (d.mantissa0 + DBL_HIDDEN) * 0x1_0000_0000 + low
    requires r ==
      if low < 0x1_0000_0000 then d.(mantissa1 := low)
      else if d.mantissa0 + 1 == DBL_HIDDEN then Double(d.negative, d.exponent + 1, 0, 0)
      else d.(mantissa0 := d.mantissa0 + 1, mantissa1 := 0)
    ensures RoundsDouble(d, r)
  {
    hide RoundTo, RoundsDouble, Pow2, Scale;
    RoundedDouble(d.Significand(), k, p);
    MiddleDouble(d, k, p, r);
  }
}
