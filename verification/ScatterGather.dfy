/**
 * `hs_pdep64`, `hs_pext64` and the table-driven population count: ghc-prim/cbits/pdep.c,
 * pext.c and popcnt.c. Scattering and gathering along a mask undo each other.
 */
module ScatterGather {
  import opened Bits

  // ---------------------------------------------------------------------------
  // Bit positions
  // ---------------------------------------------------------------------------

  function PopCount(m: nat): nat {
    if m == 0 then 0 else m % 2 + PopCount(m / 2)
  }

  /** How many bits of `m` are set below position `i`. */
  function Rank(m: nat, i: nat): nat {
    if i == 0 then 0 else m % 2 + Rank(m / 2, i - 1)
  }

  /** The bits of `x` under the set bits of `m`, packed together at the low end. */
  function Gather(x: nat, m: nat): nat
    decreases m
  {
    if m == 0 then 0
    else if m % 2 == 1 then x % 2 + 2 * Gather(x / 2, m / 2)
    else Gather(x / 2, m / 2)
  }

  /** The low bits of `x`, spread over the set bits of `m`. */
  function Scatter(x: nat, m: nat): nat
    decreases m
  {
    if m == 0 then 0
    else if m % 2 == 1 then x % 2 + 2 * Scatter(x / 2, m / 2)
    else 2 * Scatter(x, m / 2)
  }

  /** The rank of a position is the population count of the bits below it. */
  lemma {:induction false} RankIsCount(m: nat, i: nat)
    ensures Rank(m, i) == PopCount(m % Pow2(i))
  {
    if i > 0 {
      RankIsCount(m / 2, i - 1);
      HalfOfLow(m, Pow2(i - 1));
      CountBit(m / 2 % Pow2(i - 1), m % 2);
      hide PopCount;
    }
  }

  lemma HalfOfLow(m: nat, p: nat)
    requires p > 0
    ensures m % (2 * p) == m % 2 + 2 * (m / 2 % p)
  {
    ModUnique(m, 2 * p, m / 2 / p, m % 2 + 2 * (m / 2 % p));
  }

  /** Bit by bit: a set bit of the mask, the `n`th from below, moves to or from position `n`. */
  lemma {:induction false} GatherBit(x: nat, m: nat, i: nat)
    requires Bit(m, i) == 1
    ensures Bit(Gather(x, m), Rank(m, i)) == Bit(x, i)
    decreases m
  {
    if m == 0 {
      ShrZero(i);
    } else if i > 0 {
      GatherBit(x / 2, m / 2, i - 1);
    }
  }

  lemma {:induction false} ScatterBit(x: nat, m: nat, i: nat)
    ensures Bit(Scatter(x, m), i) == if Bit(m, i) == 1 then Bit(x, Rank(m, i)) else 0
    decreases m
  {
    if m == 0 {
      ShrZero(i);
    } else if i > 0 {
      ScatterBit(if m % 2 == 1 then x / 2 else x, m / 2, i - 1);
    }
  }

  /** The gathered bits fit in as many positions as the mask has. */
  lemma {:induction false} GatherFits(x: nat, m: nat)
    ensures Gather(x, m) < Pow2(PopCount(m))
    decreases m
  {
    if m > 0 {
      GatherFits(x / 2, m / 2);
    }
  }

  /** The low `k` bits of a number. */
  function LowBits(x: nat, k: nat): nat {
    x % Pow2(k)
  }

  lemma LowBitsStep(x: nat, k: nat)
    ensures LowBits(x, 0) == 0
    ensures LowBits(x, k + 1) == x % 2 + 2 * LowBits(x / 2, k)
  {
    HalveMod(x, k + 1);
  }

  /** Scattering then gathering keeps the bits there was room for. */
  lemma {:induction false} GatherScatter(x: nat, m: nat)
    ensures Gather(Scatter(x, m), m) == LowBits(x, PopCount(m))
    decreases m
  {
    hide Gather, Scatter, PopCount, LowBits;
    LowBitsStep(x, PopCount(m / 2));
    CountHalves(m);
    if m == 0 {
      GatherNothing(Scatter(x, m));
    } else {
      ScatterHalves(x, m);
      GatherHalves(Scatter(x, m), m);
      GatherScatter(if m % 2 == 1 then x / 2 else x, m / 2);
    }
  }

  /** Gathering then scattering keeps the bits under the mask. */
  lemma {:induction false} ScatterGather(x: nat, m: nat)
    ensures Scatter(Gather(x, m), m) == And(x, m)
    decreases m
  {
    if m == 0 {
      WithZero(x);
    } else {
      ScatterGather(x / 2, m / 2);
      AndStep(x, m);
    }
  }

  // ---------------------------------------------------------------------------
  // hs_pdep64
  // ---------------------------------------------------------------------------

  /** `>>` of a signed word: the sign bit fills the places it leaves. */
  function SignedShr(x: nat, k: nat, width: nat): nat
    requires k <= width
  {
    Pow2Monotone(width - k, width);
    Shr(x, k) + (if 2 * x < Pow2(width) then 0 else Pow2(width) - Pow2(width - k))
  }

  /** `-m & m` is the lowest set bit, and clearing it leaves the bits above. */
  lemma {:induction false} LowestBit(m: nat, w: nat, low: nat, rest: nat) returns (k: nat, h: nat)
    requires 0 < m < Pow2(w) && m == Pow2(low) * rest
    ensures low <= k < w && m == Pow2(k) * (2 * h + 1)
    ensures And(Pow2(w) - m, m) == Pow2(k)
    ensures And(m, Pow2(w) - 1 - Pow2(k)) == Pow2(k) * (2 * h)
    decreases w
  {
    hide And;
    if low > 0 {
      MulAssoc(2, Pow2(low - 1), rest);
    }
    if m % 2 == 1 {
      k, h := 0, m / 2;
      OddMask(m, w);
      PowZero(m);
      PowZero(m - 1);
    } else {
      EvenMask(m, w);
      k, h := LowestBit(m / 2, w - 1, if low > 0 then low - 1 else 0, if low > 0 then rest else m / 2);
      EvenClear(m, w, Pow2(k));
      MulAssoc(2, Pow2(k), 2 * h + 1);
      MulAssoc(2, Pow2(k), 2 * h);
      k := k + 1;
    }
  }

  lemma OddMask(m: nat, w: nat)
    requires m < Pow2(w) && m % 2 == 1
    ensures And(Pow2(w) - m, m) == 1
    ensures And(m, Pow2(w) - 2) == m - 1
  {
    assert w > 0;
    Pow2Step(w);
    hide Pow2, And;
    var half, rest := Pow2(w - 1), m / 2;
    assert m == 2 * rest + 1;
    AndHalves(half - 1 - rest, 1, rest, 1);
    AndHalves(rest, 1, half - 1, 0);
    AndNot(rest, w - 1);
    MaskKeeps(rest, w - 1);
  }

  lemma EvenMask(m: nat, w: nat)
    requires 0 < m < Pow2(w) && m % 2 == 0
    ensures w > 0 && m / 2 < Pow2(w - 1)
    ensures And(Pow2(w) - m, m) == 2 * And(Pow2(w - 1) - m / 2, m / 2)
  {
    assert w > 0;
    Pow2Step(w);
    hide Pow2, And;
    AndHalves(Pow2(w - 1) - m / 2, 0, m / 2, 0);
  }

  lemma EvenClear(m: nat, w: nat, p: nat)
    requires w > 0 && m % 2 == 0 && p < Pow2(w - 1)
    ensures And(m, Pow2(w) - 1 - 2 * p) == 2 * And(m / 2, Pow2(w - 1) - 1 - p)
  {
    Pow2Step(w);
    hide Pow2, And;
    AndHalves(m / 2, 0, Pow2(w - 1) - 1 - p, 1);
  }

  lemma {:induction false} AndNot(x: nat, w: nat)
    requires x < Pow2(w)
    ensures And(Pow2(w) - 1 - x, x) == 0
  {
    if w > 0 {
      AndNot(x / 2, w - 1);
      AndStep(Pow2(w) - 1 - x, x);
    }
  }

  /** A mask with its lowest bit at `k` scatters the lowest bit there and the rest above. */
  lemma {:induction false} ScatterAbove(x: nat, k: nat, h: nat)
    ensures Scatter(x, Pow2(k) * (2 * h + 1)) == Pow2(k) * (x % 2) + Scatter(x / 2, Pow2(k) * (2 * h))
    decreases k
  {
    if k == 0 {
      ScatterOdd(x, h);
    } else {
      ScatterAbove(x, k - 1, h);
      Pow2Step(k);
      hide Scatter, Pow2;
      var p := Pow2(k - 1);
      MulAssoc(2, p, 2 * h + 1);
      MulAssoc(2, p, 2 * h);
      MulAssoc(2, p, x % 2);
      ScatterEven(x, p * (2 * h + 1));
      ScatterEven(x / 2, p * (2 * h));
    }
  }

  lemma ScatterOdd(x: nat, h: nat)
    ensures Scatter(x, Pow2(0) * (2 * h + 1)) == Pow2(0) * (x % 2) + Scatter(x / 2, Pow2(0) * (2 * h))
  {
    PowZero(0);
    ScatterHalves(x, 2 * h + 1);
    ScatterHalves(x / 2, 2 * h);
    hide Scatter, Pow2;
    assert (2 * h + 1) / 2 == h;
  }

  lemma ScatterHalves(x: nat, m: nat)
    ensures Scatter(x, m) == if m % 2 == 1 then x % 2 + 2 * Scatter(x / 2, m / 2) else 2 * Scatter(x, m / 2)
  {
  }

  lemma ScatterEven(x: nat, m: nat)
    ensures Scatter(x, 2 * m) == 2 * Scatter(x, m)
  {
  }

  /** All ones if the lowest bit is set, else zero. */
  lemma SignMask(src: Word64)
    ensures SignedShr(Shl(src, 63, 64), 63, 64) == if src % 2 == 1 then 0xFFFF_FFFF_FFFF_FFFF else 0
  {
    hide Pow2;
    Pow2Large();
    Pow2Small();
    var h := Pow2(63);
    assert src * h == (src / 2) * (2 * h) + (src % 2) * h;
    ModUnique(src * h, 2 * h, src / 2, (src % 2) * h);
    ShrIsDiv(0, 63, h);
    ShrIsDiv(h, 63, h);
  }

  lemma {:induction false} ScatterWithin(x: nat, m: nat)
    ensures Scatter(x, m) <= m
    decreases m
  {
    if m > 0 {
      ScatterWithin(if m % 2 == 1 then x / 2 else x, m / 2);
    }
  }

  /** A mask of all ones or none selects a single bit or nothing. */
  lemma SelectBit(bit: nat, k: nat)
    requires bit < 2 && k < 64
    ensures And(if bit == 1 then 0xFFFF_FFFF_FFFF_FFFF else 0, Pow2(k)) == Pow2(k) * bit < 0x1_0000_0000_0000_0000
  {
    hide And, Pow2;
    var p := Pow2(k);
    assert p < 0x1_0000_0000_0000_0000 by { Pow2Large(); Pow2Below(k, 64); }
    if bit == 0 {
      WithZero(p);
    } else {
      AndCommutes(0xFFFF_FFFF_FFFF_FFFF, p);
      assert And(p, 0xFFFF_FFFF_FFFF_FFFF) == p by { Pow2Large(); AndLowMask(p, 64, 0x1_0000_0000_0000_0000); }
    }
  }

  lemma PassBounds(low: nat, k: nat, bit: nat, result: nat)
    requires low <= k && result < Pow2(low) && bit < 2
    ensures result < Pow2(k) && result + Pow2(k) * bit < Pow2(k + 1)
  {
    if low < k {
      Pow2Below(low, k);
    }
    assert Pow2(k) * 0 == 0 && Pow2(k) * 1 == Pow2(k);
  }

  lemma NegIs(m: Word64)
    ensures Neg(m, 64) == if m == 0 then 0 else 0x1_0000_0000_0000_0000 - m
  {
    hide Pow2;
    Pow2Large();
  }

  lemma HalfShift(x: nat)
    ensures Shr(x, 1) == x / 2
  {
  }

  lemma Regroup(k: nat, h: nat)
    ensures Pow2(k) * (2 * h) == Pow2(k + 1) * h
    ensures Pow2(k) * (2 * h + 1) == Pow2(k) * (2 * h) + Pow2(k)
  {
    MulAssoc(Pow2(k), 2, h);
  }

  /** `hs_pdep64`: one set bit of the mask a pass, from the lowest. */
  method Pdep64(src: Word64, mask: Word64) returns (result: Word64)
    ensures result == Scatter(src, mask)
  {
    hide And, Or, Shl, Shr, Pow2, Scatter, SignedShr, Neg;
    Pow2Large();
    ScatterWithin(src, mask);
    var s: Word64, m: Word64 := src, mask;
    result := 0;
    ghost var low, rest: nat := 0, mask;
    PowZero(mask);
    while true
      invariant result + Scatter(s, m) == Scatter(src, mask)
      invariant result < Pow2(low) && m == Pow2(low) * rest
      decreases m
    {
      var lowest := And(Neg(m, 64), m);
      NegIs(m);
      WithZero(0);
      ghost var k, h;
      if m > 0 {
        k, h := LowestBit(m, 64, low, rest);
      }
      if lowest == 0 {
        break;
      }
      Regroup(k, h);
      ScatterAbove(s, k, h);
      SignMask(s);
      SelectBit(s % 2, k);
      PassBounds(low, k, s % 2, result);
      OrDisjoint(k, Pow2(k), result, s % 2);
      HalfShift(s);
      var lsb := SignedShr(Shl(s, 63, 64), 63, 64);
      result := Or(result, And(lsb, lowest));
      m := And(m, Not(lowest, 64));
      s := Shr(s, 1);
      low, rest := k + 1, h;
    }
    ScatterNothing(s);
  }

  lemma PowZero(m: nat)
    ensures Pow2(0) == 1 && m == Pow2(0) * m
  {
  }

  lemma ScatterNothing(x: nat)
    ensures Scatter(x, 0) == 0
  {
  }

  // ---------------------------------------------------------------------------
  // hs_pext64
  // ---------------------------------------------------------------------------

  /** `hs_pext64`: every bit position in turn. */
  method Pext64(src: Word64, mask: Word64) returns (result: Word64)
    ensures result == Gather(src, mask)
  {
    hide And, Or, Shl, Shr, Pow2, Gather;
    GatherWord(src, mask);
    result := 0;
    var offset := 0;
    ShiftByZero(src);
    ShiftByZero(mask);
    PowZero(Gather(src, mask));
    for bit := 0 to 64
      invariant offset <= bit && result < Pow2(offset)
      invariant result + Pow2(offset) * Gather(Shr(src, bit), Shr(mask, bit)) == Gather(src, mask)
    {
      GatherStep(src, mask, bit, offset);
      var srcBit := And(Shr(src, bit), 1);
      var maskBit := And(Shr(mask, bit), 1);
      if maskBit != 0 {
        ShlBit(srcBit, offset);
        OrDisjoint(offset, Pow2(offset), result, srcBit);
        PassBounds(offset, offset, srcBit, result);
        result := Or(result, Shl(srcBit, offset, 64));
        offset := offset + 1;
      }
    }
    AllShifted(mask);
    GatherNothing(Shr(src, 64));
  }

  lemma GatherWord(src: nat, mask: Word64)
    ensures Gather(src, mask) < 0x1_0000_0000_0000_0000
  {
    hide Pow2, Gather;
    GatherFits(src, mask);
    Pow2Large();
    CountFits(mask, 64);
    Pow2Monotone(PopCount(mask), 64);
  }

  lemma {:induction false} CountFits(m: nat, w: nat)
    requires m < Pow2(w)
    ensures PopCount(m) <= w
  {
    if m > 0 {
      CountFits(m / 2, w - 1);
    }
  }

  lemma ShiftByZero(x: nat)
    ensures Shr(x, 0) == x
  {
  }

  lemma AllShifted(m: Word64)
    ensures Shr(m, 64) == 0
  {
    hide Pow2, Shr;
    Pow2Large();
    ShrIsDiv(m, 64, 0x1_0000_0000_0000_0000);
  }

  lemma GatherNothing(x: nat)
    ensures Gather(x, 0) == 0
  {
  }

  lemma ShlBit(bit: nat, offset: nat)
    requires bit < 2 && offset < 64
    ensures Shl(bit, offset, 64) == Pow2(offset) * bit
  {
    hide Pow2;
    Pow2Below(offset, 64);
    assert Pow2(offset) * 0 == 0 && Pow2(offset) * 1 == Pow2(offset);
  }

  /** One position: the mask bit decides whether the source bit joins the result. */
  lemma GatherStep(src: nat, mask: nat, bit: nat, offset: nat)
    ensures var s, m := Shr(src, bit), Shr(mask, bit);
      && And(s, 1) == s % 2 && And(m, 1) == m % 2
      && var rest := Gather(Shr(src, bit + 1), Shr(mask, bit + 1));
        Pow2(offset) * Gather(s, m) ==
          if m % 2 == 1 then Pow2(offset) * (s % 2) + Pow2(offset + 1) * rest else Pow2(offset) * rest
  {
    hide And, Shr;
    var s, m := Shr(src, bit), Shr(mask, bit);
    ShrShr(src, bit, 1);
    ShrShr(mask, bit, 1);
    HalfShift(s);
    HalfShift(m);
    Pow2Small();
    AndLowMask(s, 1, 2);
    AndLowMask(m, 1, 2);
    GatherHalves(s, m);
    hide Gather;
    var rest := Gather(s / 2, m / 2);
    MulAssoc(Pow2(offset), 2, rest);
    assert Pow2(offset) * (s % 2 + 2 * rest) == Pow2(offset) * (s % 2) + Pow2(offset) * (2 * rest);
  }

  lemma GatherHalves(x: nat, m: nat)
    ensures Gather(x, m) == if m % 2 == 1 then x % 2 + 2 * Gather(x / 2, m / 2) else Gather(x / 2, m / 2)
  {
  }

  // ---------------------------------------------------------------------------
  // hs_popcnt64
  // ---------------------------------------------------------------------------

  /** The table, a source line of thirty-two bytes to a row. */
  const POPCOUNT_ROWS: seq<seq<nat>> := [
    [0,1,1,2,1,2,2,3,1,2,2,3,2,3,3,4,1,2,2,3,2,3,3,4,2,3,3,4,3,4,4,5],
    [1,2,2,3,2,3,3,4,2,3,3,4,3,4,4,5,2,3,3,4,3,4,4,5,3,4,4,5,4,5,5,6],
    [1,2,2,3,2,3,3,4,2,3,3,4,3,4,4,5,2,3,3,4,3,4,4,5,3,4,4,5,4,5,5,6],
    [2,3,3,4,3,4,4,5,3,4,4,5,4,5,5,6,3,4,4,5,4,5,5,6,4,5,5,6,5,6,6,7],
    [1,2,2,3,2,3,3,4,2,3,3,4,3,4,4,5,2,3,3,4,3,4,4,5,3,4,4,5,4,5,5,6],
    [2,3,3,4,3,4,4,5,3,4,4,5,4,5,5,6,3,4,4,5,4,5,5,6,4,5,5,6,5,6,6,7],
    [2,3,3,4,3,4,4,5,3,4,4,5,4,5,5,6,3,4,4,5,4,5,5,6,4,5,5,6,5,6,6,7],
    [3,4,4,5,4,5,5,6,4,5,5,6,5,6,6,7,4,5,5,6,5,6,6,7,5,6,6,7,6,7,7,8]
  ]

  lemma RowLength(row: nat)
    requires row < 8
    ensures |POPCOUNT_ROWS[row]| == 32
  {
  }

  /** `popcount_tab[(unsigned char)x]` */
  function Lookup(x: nat): nat {
    var b := x % 256;
    RowLength(b / 32);
    POPCOUNT_ROWS[b / 32][b % 32]
  }

  /** The counts of a low field and of what lies above it add up. */
  lemma {:induction false} CountSplit(x: nat, k: nat)
    ensures PopCount(x) == PopCount(x % Pow2(k)) + PopCount(Shr(x, k))
  {
    hide Pow2, Shr, PopCount;
    if k == 0 {
      PowZero(x);
      ShiftByZero(x);
      assert x % 1 == 0;
      CountHalves(0);
    } else {
      HalveMod(x, k);
      CountSplit(x / 2, k - 1);
      ShrShr(x, 1, k - 1);
      HalfShift(x);
      CountHalves(x);
      CountBit((x / 2) % Pow2(k - 1), x % 2);
    }
  }

  lemma CountBit(x: nat, bit: nat)
    requires bit < 2
    ensures PopCount(2 * x + bit) == bit + PopCount(x)
  {
  }

  lemma CountHalves(x: nat)
    ensures PopCount(x) == x % 2 + PopCount(x / 2)
    ensures PopCount(0) == 0
  {
  }

  /** The number of bits of a row number. */
  function RowBits(row: nat): nat
    requires row < 8
  {
    row / 4 + row / 2 % 2 + row % 2
  }

  /** Each row of the table is the first one raised by the count of the row number. */
  lemma RowRaised(row: nat, column: nat)
    requires row < 8 && column < 32
    ensures |POPCOUNT_ROWS[row]| == 32 == |POPCOUNT_ROWS[0]|
    ensures POPCOUNT_ROWS[row][column] == RowBits(row) + POPCOUNT_ROWS[0][column]
  {
    if row < 2 {
      LowRows(row, column);
    } else if row < 4 {
      MiddleRows(row, column);
    } else if row < 6 {
      HighRows(row, column);
    } else {
      LastRows(row, column);
    }
  }

  lemma LowRows(row: nat, column: nat)
    requires row < 2 && column < 32
    ensures |POPCOUNT_ROWS[row]| == 32 == |POPCOUNT_ROWS[0]|
    ensures POPCOUNT_ROWS[row][column] == row + POPCOUNT_ROWS[0][column]
  {
  }

  lemma MiddleRows(row: nat, column: nat)
    requires 2 <= row < 4 && column < 32
    ensures |POPCOUNT_ROWS[row]| == 32 == |POPCOUNT_ROWS[0]|
    ensures POPCOUNT_ROWS[row][column] == row - 1 + POPCOUNT_ROWS[0][column]
  {
  }

  lemma HighRows(row: nat, column: nat)
    requires 4 <= row < 6 && column < 32
    ensures |POPCOUNT_ROWS[row]| == 32 == |POPCOUNT_ROWS[0]|
    ensures POPCOUNT_ROWS[row][column] == row - 3 + POPCOUNT_ROWS[0][column]
  {
  }

  lemma LastRows(row: nat, column: nat)
    requires 6 <= row < 8 && column < 32
    ensures |POPCOUNT_ROWS[row]| == 32 == |POPCOUNT_ROWS[0]|
    ensures POPCOUNT_ROWS[row][column] == row - 4 + POPCOUNT_ROWS[0][column]
  {
  }

  /** The first row counts bits: doubling a column keeps the count, one more adds one. */
  lemma {:induction false} FirstRow(column: nat)
    requires column < 32
    ensures |POPCOUNT_ROWS[0]| == 32 && POPCOUNT_ROWS[0][column] == PopCount(column)
  {
    RowLength(0);
    FirstRowHalves(column);
    CountHalves(column);
    hide PopCount;
    if column > 0 {
      FirstRow(column / 2);
    }
  }

  lemma FirstRowHalves(column: nat)
    requires column < 32
    ensures |POPCOUNT_ROWS[0]| == 32 && POPCOUNT_ROWS[0][column] == column % 2 + POPCOUNT_ROWS[0][column / 2]
  {
  }

  lemma RowCount(row: nat)
    requires row < 8
    ensures RowBits(row) == PopCount(row)
  {
    CountHalves(row);
    CountHalves(row / 2);
    CountHalves(row / 4);
  }

  lemma LookupCounts(x: nat)
    ensures Lookup(x) == PopCount(x % 256)
  {
    var b := x % 256;
    Pow2Small();
    CountSplit(b, 5);
    ShrIsDiv(b, 5, 32);
    RowRaised(b / 32, b % 32);
    RowCount(b / 32);
    FirstRow(b % 32);
    hide PopCount, Shr, Pow2;
  }

  /** `hs_popcnt64`: eight lookups, one for each byte. */
  function Popcnt64(x: Word64): nat {
    Lookup(x) + Lookup(Shr(x, 8)) + Lookup(Shr(x, 16)) + Lookup(Shr(x, 24))
    + Lookup(Shr(x, 32)) + Lookup(Shr(x, 40)) + Lookup(Shr(x, 48)) + Lookup(Shr(x, 56))
  }

  /** The count of all the bits from byte `i` up. */
  lemma CountFrom(x: nat, i: nat)
    ensures PopCount(Shr(x, i)) == Lookup(Shr(x, i)) + PopCount(Shr(x, i + 8))
  {
    hide Shr, PopCount, Lookup;
    LookupCounts(Shr(x, i));
    Pow2Small();
    CountSplit(Shr(x, i), 8);
    ShrShr(x, i, 8);
  }

  lemma Popcnt64Counts(x: Word64)
    ensures Popcnt64(x) == PopCount(x)
  {
    hide Shr, Lookup, PopCount;
    ShiftByZero(x);
    CountFrom(x, 0);
    CountFrom(x, 8);
    CountFrom(x, 16);
    CountFrom(x, 24);
    CountFrom(x, 32);
    CountFrom(x, 40);
    CountFrom(x, 48);
    CountFrom(x, 56);
    AllShifted(x);
    CountHalves(0);
  }
}
