/**
 * Unsigned machine words as natural numbers.
 *
 * The C sources mix arithmetic with masks and shifts. Each C operator is defined here
 * bit by bit on `nat`, so that a model can keep the operator the source uses; the lemmas
 * give the arithmetic meaning of the combinations the sources rely on.
 */
module Bits {

  type Byte = b: nat | b < 256
  type Word16 = w: nat | w < 0x1_0000
  type Word32 = w: nat | w < 0x1_0000_0000
  type Word64 = w: nat | w < 0x1_0000_0000_0000_0000

  function Pow2(k: nat): (r: nat)
    ensures r >= 1
  {
    if k == 0 then 1 else 2 * Pow2(k - 1)
  }

  function And(x: nat, y: nat): nat
  {
    if x == 0 || y == 0 then 0
    else 2 * And(x / 2, y / 2) + (if x % 2 == 1 && y % 2 == 1 then 1 else 0)
  }

  function Or(x: nat, y: nat): nat
    decreases x + y
  {
    if x == 0 && y == 0 then 0
    else 2 * Or(x / 2, y / 2) + (if x % 2 == 1 || y % 2 == 1 then 1 else 0)
  }

  function Xor(x: nat, y: nat): nat
    decreases x + y
  {
    if x == 0 && y == 0 then 0
    else 2 * Xor(x / 2, y / 2) + (if x % 2 != y % 2 then 1 else 0)
  }

  /** `x << k` kept to `width` bits. */
  function Shl(x: nat, k: nat, width: nat): nat {
    (x * Pow2(k)) % Pow2(width)
  }

  function Shr(x: nat, k: nat): nat
  {
    if k == 0 then x else Shr(x / 2, k - 1)
  }

  /** `-x` in an unsigned word of `width` bits. */
  function Neg(x: nat, width: nat): nat
  {
    (Pow2(width) - x % Pow2(width)) % Pow2(width)
  }

  /** `~x` in a word of `width` bits. */
  function Not(x: nat, width: nat): (r: nat)
    requires x < Pow2(width)
    ensures r < Pow2(width)
  {
    Pow2(width) - 1 - x
  }

  // ---------------------------------------------------------------------------
  // Powers of two
  // ---------------------------------------------------------------------------

  lemma Pow2Small()
    ensures Pow2(0) == 1 && Pow2(1) == 2 && Pow2(2) == 4 && Pow2(3) == 8
    ensures Pow2(4) == 16 && Pow2(5) == 32 && Pow2(6) == 64
    ensures Pow2(7) == 128 && Pow2(8) == 256 && Pow2(9) == 512 && Pow2(10) == 0x400 && Pow2(12) == 0x1000
    ensures Pow2(16) == 0x1_0000 && Pow2(18) == 0x4_0000 && Pow2(20) == 0x10_0000
  {
  }

  lemma Pow2Large()
    ensures Pow2(24) == 0x100_0000 && Pow2(29) == 0x2000_0000 && Pow2(31) == 0x8000_0000
    ensures Pow2(32) == 0x1_0000_0000 && Pow2(48) == 0x1_0000_0000_0000
    ensures Pow2(63) == 0x8000_0000_0000_0000 && Pow2(64) == 0x1_0000_0000_0000_0000
  {
    Pow2Small();
    Pow2Add(16, 8);
    Pow2Add(24, 5);
    Pow2Add(16, 16);
    Pow2Add(32, 16);
    Pow2Add(48, 16);
    assert Pow2(32) == 2 * Pow2(31);
    assert Pow2(64) == 2 * Pow2(63);
  }

  lemma {:induction false} Pow2Monotone(j: nat, k: nat)
    requires j <= k
    ensures Pow2(j) <= Pow2(k)
  {
    if j < k {
      Pow2Monotone(j, k - 1);
    }
  }

  lemma {:induction false} Pow2Below(j: nat, k: nat)
    requires j < k
    ensures Pow2(j) < Pow2(k)
  {
    if j + 1 < k {
      Pow2Below(j, k - 1);
    }
  }

  lemma Pow2Step(k: nat)
    requires k > 0
    ensures Pow2(k) == 2 * Pow2(k - 1)
  {
  }

  lemma {:induction false} Pow2Add(j: nat, k: nat)
    ensures Pow2(j + k) == Pow2(j) * Pow2(k)
  {
    if j > 0 {
      Pow2Add(j - 1, k);
      assert Pow2(j + k) == 2 * Pow2(j - 1 + k);
      MulAssoc(2, Pow2(j - 1), Pow2(k));
    }
  }

  lemma {:induction false} ShrIsDiv(x: nat, k: nat, p: nat)
    requires p == Pow2(k)
    ensures Shr(x, k) == x / p
  {
    if k > 0 {
      ShrIsDiv(x / 2, k - 1, Pow2(k - 1));
      DivDiv(x, Pow2(k - 1));
    }
  }

  lemma {:induction false} ShrOnes(n: nat, k: nat)
    ensures Shr(Pow2(n) - 1, k) == if k <= n then Pow2(n - k) - 1 else 0
    decreases k
  {
    if k > 0 {
      ShrOnes(if n > 0 then n - 1 else 0, k - 1);
    }
  }

  lemma DivDiv(x: nat, p: nat)
    requires p > 0
    ensures (x / 2) / p == x / (2 * p)
  {
    var q, r := (x / 2) / p, (x / 2) % p;
    assert x == 2 * (q * p + r) + x % 2;
    ModUnique(x, 2 * p, q, 2 * r + x % 2);
  }

  lemma MulAssoc(x: int, y: int, z: int)
    ensures (x * y) * z == x * (y * z)
  {
  }

  // ---------------------------------------------------------------------------
  // One bit at a time
  // ---------------------------------------------------------------------------

  /** A field of `k` low bits under a high part, built bit by bit. */
  function Cat(k: nat, low: nat, high: nat): (r: nat)
  {
    if k == 0 then high else 2 * Cat(k - 1, low / 2, high) + low % 2
  }

  lemma CatStep(k: nat, low: nat, high: nat)
    requires k > 0
    ensures Cat(k, low, high) / 2 == Cat(k - 1, low / 2, high)
    ensures Cat(k, low, high) % 2 == low % 2
  {
  }

  lemma {:induction false} CatIsSum(k: nat, low: nat, high: nat)
    requires low < Pow2(k)
    ensures Cat(k, low, high) == low + Pow2(k) * high
  {
    if k > 0 {
      CatIsSum(k - 1, low / 2, high);
      MulAssoc(2, Pow2(k - 1), high);
    }
  }

  /** Below and above position `k`, the bits of two words combine separately. */
  lemma {:induction false} AndCat(k: nat, a: nat, b: nat, c: nat, d: nat)
    ensures And(Cat(k, a, b), Cat(k, c, d)) == Cat(k, And(a, c), And(b, d))
  {
    if k > 0 {
      AndCat(k - 1, a / 2, b, c / 2, d);
      CatStep(k, a, b);
      CatStep(k, c, d);
      CatStep(k, And(a, c), And(b, d));
      AndStep(Cat(k, a, b), Cat(k, c, d));
      AndStep(a, c);
    }
  }

  lemma {:induction false} OrCat(k: nat, a: nat, b: nat, c: nat, d: nat)
    ensures Or(Cat(k, a, b), Cat(k, c, d)) == Cat(k, Or(a, c), Or(b, d))
  {
    if k > 0 {
      OrCat(k - 1, a / 2, b, c / 2, d);
      CatStep(k, a, b);
      CatStep(k, c, d);
      CatStep(k, Or(a, c), Or(b, d));
      OrStep(Cat(k, a, b), Cat(k, c, d));
      OrStep(a, c);
    }
  }

  lemma {:induction false} XorCat(k: nat, a: nat, b: nat, c: nat, d: nat)
    ensures Xor(Cat(k, a, b), Cat(k, c, d)) == Cat(k, Xor(a, c), Xor(b, d))
  {
    if k > 0 {
      XorCat(k - 1, a / 2, b, c / 2, d);
      CatStep(k, a, b);
      CatStep(k, c, d);
      CatStep(k, Xor(a, c), Xor(b, d));
      XorStep(Cat(k, a, b), Cat(k, c, d));
      XorStep(a, c);
    }
  }

  lemma AndStep(x: nat, y: nat)
    ensures And(x, y) / 2 == And(x / 2, y / 2)
    ensures And(x, y) % 2 == if x % 2 == 1 && y % 2 == 1 then 1 else 0
  {
  }

  lemma AndHalves(x: nat, i: nat, y: nat, j: nat)
    requires i < 2 && j < 2
    ensures And(2 * x + i, 2 * y + j) == 2 * And(x, y) + (if i == 1 && j == 1 then 1 else 0)
  {
    AndStep(2 * x + i, 2 * y + j);
  }

  lemma OrStep(x: nat, y: nat)
    ensures Or(x, y) / 2 == Or(x / 2, y / 2)
    ensures Or(x, y) % 2 == if x % 2 == 1 || y % 2 == 1 then 1 else 0
  {
  }

  lemma XorStep(x: nat, y: nat)
    ensures Xor(x, y) / 2 == Xor(x / 2, y / 2)
    ensures Xor(x, y) % 2 == if x % 2 != y % 2 then 1 else 0
  {
  }

  /** `Split` for the sum form: two words cut at the same position. */
  lemma Split(k: nat, p: nat, a: nat, b: nat, c: nat, d: nat)
    requires p == Pow2(k) && a < p && c < p
    ensures And(a + p * b, c + p * d) == And(a, c) + p * And(b, d)
    ensures Or(a + p * b, c + p * d) == Or(a, c) + p * Or(b, d)
    ensures Xor(a + p * b, c + p * d) == Xor(a, c) + p * Xor(b, d)
  {
    hide And, Or, Xor, Cat, Pow2;
    CatIsSum(k, a, b);
    CatIsSum(k, c, d);
    AndCat(k, a, b, c, d);
    OrCat(k, a, b, c, d);
    XorCat(k, a, b, c, d);
    Below(k, a, c);
    CatIsSum(k, And(a, c), And(b, d));
    CatIsSum(k, Or(a, c), Or(b, d));
    CatIsSum(k, Xor(a, c), Xor(b, d));
  }

  lemma {:induction false} Below(k: nat, x: nat, y: nat)
    requires x < Pow2(k) && y < Pow2(k)
    ensures And(x, y) < Pow2(k) && Or(x, y) < Pow2(k) && Xor(x, y) < Pow2(k)
  {
    if k > 0 {
      Below(k - 1, x / 2, y / 2);
      AndStep(x, y);
      OrStep(x, y);
      XorStep(x, y);
    }
  }

  // ---------------------------------------------------------------------------
  // Bit positions
  // ---------------------------------------------------------------------------

  function Bit(x: nat, i: nat): nat {
    Shr(x, i) % 2
  }

  lemma {:induction false} ShrZero(k: nat)
    ensures Shr(0, k) == 0
  {
    if k > 0 {
      ShrZero(k - 1);
    }
  }

  /** The operators bit by bit. */
  lemma {:induction false} BitOps(x: nat, y: nat, i: nat)
    ensures Bit(And(x, y), i) == if Bit(x, i) == 1 && Bit(y, i) == 1 then 1 else 0
    ensures Bit(Or(x, y), i) == if Bit(x, i) == 1 || Bit(y, i) == 1 then 1 else 0
    ensures Bit(Xor(x, y), i) == if Bit(x, i) != Bit(y, i) then 1 else 0
    decreases i
  {
    AndStep(x, y);
    OrStep(x, y);
    XorStep(x, y);
    hide And, Or, Xor;
    if i > 0 {
      BitOps(x / 2, y / 2, i - 1);
    }
  }

  lemma {:induction false} BitNot(x: nat, width: nat, i: nat)
    requires x < Pow2(width) && i < width
    ensures Bit(Not(x, width), i) == 1 - Bit(x, i)
    decreases i
  {
    assert Not(x, width) / 2 == Not(x / 2, width - 1) && Not(x, width) % 2 == 1 - x % 2;
    hide Not, Pow2;
    if i > 0 {
      BitNot(x / 2, width - 1, i - 1);
    }
  }

  /** The bits of a low field and of what is above it. */
  lemma {:induction false} BitCat(k: nat, low: nat, high: nat, i: nat)
    ensures Bit(Cat(k, low, high), i) == if i < k then Bit(low, i) else Bit(high, i - k)
    decreases k
  {
    if k > 0 {
      CatStep(k, low, high);
      if i > 0 {
        BitCat(k - 1, low / 2, high, i - 1);
      }
    }
  }

  lemma BitSum(k: nat, p: nat, low: nat, high: nat, i: nat)
    requires p == Pow2(k) && low < p
    ensures Bit(low + p * high, i) == if i < k then Bit(low, i) else Bit(high, i - k)
  {
    hide Cat, Bit, Pow2;
    CatIsSum(k, low, high);
    BitCat(k, low, high, i);
  }

  // ---------------------------------------------------------------------------
  // The combinations the sources use
  // ---------------------------------------------------------------------------

  lemma {:induction false} AndCommutes(x: nat, y: nat)
    ensures And(x, y) == And(y, x)
  {
    if x > 0 && y > 0 {
      AndCommutes(x / 2, y / 2);
    }
  }

  /** A low mask keeps the remainder. */
  lemma {:induction false} AndLowMask(x: nat, k: nat, p: nat)
    requires p == Pow2(k)
    ensures And(x, p - 1) == x % p
  {
    if k == 0 {
    } else {
      var q := Pow2(k - 1);
      AndLowMask(x / 2, k - 1, q);
      AndStep(x, p - 1);
      HalveMod(x, k);
      hide And, Pow2;
      assert (p - 1) / 2 == q - 1 && (p - 1) % 2 == 1;
    }
  }

  lemma MaskKeeps(x: nat, k: nat)
    requires x < Pow2(k)
    ensures And(x, Pow2(k) - 1) == x
  {
    hide And, Pow2;
    AndLowMask(x, k, Pow2(k));
    ModUnique(x, Pow2(k), 0, x);
  }

  /** A mask of the high bits drops the remainder. */
  lemma {:induction false} AndHighMask(x: nat, k: nat, w: nat)
    requires k <= w && x < Pow2(w)
    ensures Pow2(k) <= Pow2(w) && And(x, Pow2(w) - Pow2(k)) == x - x % Pow2(k)
  {
    hide And;
    if k == 0 {
      MaskKeeps(x, w);
    } else {
      AndHighMask(x / 2, k - 1, w - 1);
      AndHalves(x / 2, x % 2, Pow2(w - 1) - Pow2(k - 1), 0);
      HalveMod(x, k);
      Pow2Step(k);
      Pow2Step(w);
    }
  }

  lemma HalveMod(x: nat, k: nat)
    requires k > 0
    ensures x % Pow2(k) == 2 * ((x / 2) % Pow2(k - 1)) + x % 2
  {
    hide Pow2;
    assert Pow2(k) == 2 * Pow2(k - 1) by { Pow2Add(1, k - 1); Pow2Small(); }
    var p := Pow2(k - 1);
    var q, r := (x / 2) / p, (x / 2) % p;
    assert x == 2 * (q * p + r) + x % 2;
    assert x == q * (2 * p) + (2 * r + x % 2);
    ModUnique(x, 2 * p, q, 2 * r + x % 2);
  }

  lemma ModUnique(x: int, m: int, q: int, r: int)
    requires 0 <= r < m && x == q * m + r
    ensures x % m == r && x / m == q
  {
    var d := q - x / m;
    assert d * m == x % m - r;
    assert d >= 1 ==> d * m >= m;
    assert d <= -1 ==> d * m <= -m;
  }

  lemma {:induction false} WithZero(x: nat)
    ensures Or(x, 0) == x && Or(0, x) == x && Xor(x, 0) == x && And(x, 0) == 0 && And(0, x) == 0
  {
    if x > 0 {
      WithZero(x / 2);
    }
  }

  /** Joining a low field with a shifted high field is addition. */
  lemma OrDisjoint(k: nat, p: nat, low: nat, high: nat)
    requires p == Pow2(k) && low < p
    ensures Or(low, p * high) == low + p * high
    ensures Or(p * high, low) == low + p * high
  {
    hide And, Or, Xor, Pow2;
    WithZero(low);
    WithZero(high);
    assert p * 0 == 0;
    Split(k, p, low, 0, 0, high);
    Split(k, p, 0, high, low, 0);
  }

  /** Clearing the low bits that a mask selected is subtraction. */
  lemma XorClearsLow(x: nat, k: nat, p: nat)
    requires p == Pow2(k)
    ensures Xor(x, x % p) == x - x % p
  {
    hide And, Or, Xor, Pow2;
    var r, q := x % p, x / p;
    assert x == r + p * q;
    Split(k, p, r, q, r, 0);
    assert p * 0 == 0;
    XorSelf(r);
    WithZero(q);
  }

  /** Testing one bit is testing the part above it for oddness. */
  lemma AndBit(k: nat, p: nat, low: nat, high: nat)
    requires p == Pow2(k) && low < p
    ensures And(low + p * high, p) == p * (high % 2)
  {
    hide And, Pow2;
    WithZero(low);
    assert And(high, 1) == high % 2 by { Pow2Small(); AndLowMask(high, 1, 2); }
    assert p * 1 == p;
    Split(k, p, low, high, 0, 1);
  }

  /** A bit above a field is set by `|` and cleared by `^`. */
  lemma HiddenBit(x: nat, k: nat, p: nat)
    requires p == Pow2(k) && x < p
    ensures Or(x, p) == x + p && Xor(x + p, p) == x
  {
    hide And, Or, Xor, Pow2;
    WithZero(x);
    OrDisjoint(k, p, x, 1);
    Split(k, p, x, 1, 0, 1);
    XorSelf(1);
    assert p * 1 == p && p * 0 == 0;
  }

  lemma {:induction false} XorSelf(x: nat)
    ensures Xor(x, x) == 0
  {
    if x > 0 {
      XorSelf(x / 2);
    }
  }

  // ---------------------------------------------------------------------------
  // Words loaded from memory: equal fields, the first in the low bits
  // ---------------------------------------------------------------------------

  function Pack(k: nat, fields: seq<nat>): nat {
    if fields == [] then 0 else fields[0] + Pow2(k) * Pack(k, fields[1..])
  }

  ghost predicate Fit(k: nat, fields: seq<nat>) {
    forall i | 0 <= i < |fields| :: fields[i] < Pow2(k)
  }

  /** A mask tests all the fields of a word at once. */
  lemma {:induction false} AndPack(k: nat, xs: seq<nat>, ms: seq<nat>)
    requires |xs| == |ms| && Fit(k, xs) && Fit(k, ms)
    ensures And(Pack(k, xs), Pack(k, ms)) == Pack(k, seq(|xs|, i requires 0 <= i < |xs| => And(xs[i], ms[i])))
  {
    hide And, Pow2;
    var rs := seq(|xs|, i requires 0 <= i < |xs| => And(xs[i], ms[i]));
    if xs == [] {
      WithZero(0);
    } else {
      AndPack(k, xs[1..], ms[1..]);
      Split(k, Pow2(k), xs[0], Pack(k, xs[1..]), ms[0], Pack(k, ms[1..]));
      assert rs[1..] == seq(|xs| - 1, i requires 0 <= i < |xs| - 1 => And(xs[1..][i], ms[1..][i]));
    }
  }

  lemma PackFour(k: nat, b: seq<nat>)
    requires |b| == 4
    ensures Pack(k, b) == b[0] + Pow2(k) * (b[1] + Pow2(k) * (b[2] + Pow2(k) * b[3]))
  {
    hide Pow2;
    var t, u, v := b[1..], b[2..], b[3..];
    assert t[1..] == u && u[1..] == v && v[1..] == [];
    assert Pack(k, v) == b[3] + Pow2(k) * 0 == b[3];
    assert Pack(k, u) == b[2] + Pow2(k) * b[3];
    assert Pack(k, t) == b[1] + Pow2(k) * Pack(k, u);
  }

  lemma {:induction false} PackIsZero(k: nat, xs: seq<nat>)
    ensures Pack(k, xs) == 0 <==> forall i | 0 <= i < |xs| :: xs[i] == 0
  {
    hide Pow2;
    if xs != [] {
      PackIsZero(k, xs[1..]);
      assert forall i | 1 <= i < |xs| :: xs[i] == xs[1..][i - 1];
      var high := Pack(k, xs[1..]);
      assert high > 0 ==> Pow2(k) * high > 0;
    }
  }

  /** Shifting by whole fields and masking one field reads it back. */
  lemma {:induction false} FieldOf(k: nat, xs: seq<nat>, i: nat)
    requires i < |xs| && Fit(k, xs)
    ensures And(Shr(Pack(k, xs), k * i), Pow2(k) - 1) == xs[i]
    decreases i
  {
    hide And, Pow2, Shr;
    var high := Pack(k, xs[1..]);
    ModUnique(Pack(k, xs), Pow2(k), high, xs[0]);
    if i == 0 {
      assert k * i == 0;
      ShrIsDiv(Pack(k, xs), 0, Pow2(0));
      Pow2Small();
      AndLowMask(Pack(k, xs), k, Pow2(k));
    } else {
      assert k * i == k + k * (i - 1);
      ShrShr(Pack(k, xs), k, k * (i - 1));
      ShrIsDiv(Pack(k, xs), k, Pow2(k));
      FieldOf(k, xs[1..], i - 1);
    }
  }

  lemma {:induction false} ShrShr(x: nat, j: nat, k: nat)
    ensures Shr(x, j + k) == Shr(Shr(x, j), k)
  {
    if j > 0 {
      ShrShr(x / 2, j - 1, k);
    }
  }
}
