/**
 * The MD5 context of asterius/libc/md5.c, against RFC 1321. Memory is bytes; words are read
 * from it and written to it in the byte order of the host.
 */
module Md5 {
  import opened Bits
  import opened Sequences

  // ---------------------------------------------------------------------------
  // RFC 1321, section 3.4: one block
  // ---------------------------------------------------------------------------

  function Plus(x: Word32, y: Word32): Word32 {
    (x + y) % 0x1_0000_0000
  }

  /** `x <<< s`: the high bits of the product come back in at the bottom. */
  function Rotl(x: Word32, s: nat): (r: Word32)
    requires 0 < s < 32
  {
    Pow2Large();
    Pow2Add(s, 32 - s);
    RotateParts(x, Pow2(s), Pow2(32 - s));
    (x * Pow2(s)) % 0x1_0000_0000 + x / Pow2(32 - s)
  }

  lemma RotateParts(x: Word32, p: nat, q: nat)
    requires p > 0 && q > 0 && p * q == 0x1_0000_0000
    ensures 0 <= x / q < p && (x * p) % 0x1_0000_0000 == p * (x % q)
    ensures p * (x % q) + x / q < 0x1_0000_0000
  {
    var low, high := x / q, x % q;
    assert x == q * low + high;
    assert x * p == (q * low + high) * p == low * (p * q) + p * high;
    assert p * high <= p * (q - 1);
    assert p * (q - 1) == p * q - p;
    ModUnique(x * p, 0x1_0000_0000, low, p * high);
    assert low >= p ==> q * low >= q * p;
  }

  function T(i: nat): Word32
    requires i < 64
  {
    match i
    case 0 => 0xd76aa478 case 1 => 0xe8c7b756 case 2 => 0x242070db case 3 => 0xc1bdceee
    case 4 => 0xf57c0faf case 5 => 0x4787c62a case 6 => 0xa8304613 case 7 => 0xfd469501
    case 8 => 0x698098d8 case 9 => 0x8b44f7af case 10 => 0xffff5bb1 case 11 => 0x895cd7be
    case 12 => 0x6b901122 case 13 => 0xfd987193 case 14 => 0xa679438e case 15 => 0x49b40821
    case 16 => 0xf61e2562 case 17 => 0xc040b340 case 18 => 0x265e5a51 case 19 => 0xe9b6c7aa
    case 20 => 0xd62f105d case 21 => 0x02441453 case 22 => 0xd8a1e681 case 23 => 0xe7d3fbc8
    case 24 => 0x21e1cde6 case 25 => 0xc33707d6 case 26 => 0xf4d50d87 case 27 => 0x455a14ed
    case 28 => 0xa9e3e905 case 29 => 0xfcefa3f8 case 30 => 0x676f02d9 case 31 => 0x8d2a4c8a
    case 32 => 0xfffa3942 case 33 => 0x8771f681 case 34 => 0x6d9d6122 case 35 => 0xfde5380c
    case 36 => 0xa4beea44 case 37 => 0x4bdecfa9 case 38 => 0xf6bb4b60 case 39 => 0xbebfbc70
    case 40 => 0x289b7ec6 case 41 => 0xeaa127fa case 42 => 0xd4ef3085 case 43 => 0x04881d05
    case 44 => 0xd9d4d039 case 45 => 0xe6db99e5 case 46 => 0x1fa27cf8 case 47 => 0xc4ac5665
    case 48 => 0xf4292244 case 49 => 0x432aff97 case 50 => 0xab9423a7 case 51 => 0xfc93a039
    case 52 => 0x655b59c3 case 53 => 0x8f0ccc92 case 54 => 0xffeff47d case 55 => 0x85845dd1
    case 56 => 0x6fa87e4f case 57 => 0xfe2ce6e0 case 58 => 0xa3014314 case 59 => 0x4e0811a1
    case 60 => 0xf7537e82 case 61 => 0xbd3af235 case 62 => 0x2ad7d2bb case _ => 0xeb86d391
  }

  /** The words of the block in the order of the four rounds. */
  function K(i: nat): (k: nat)
    ensures k < 16
  {
    if i < 16 then i else if i < 32 then (5 * i + 1) % 16 else if i < 48 then (3 * i + 5) % 16 else 7 * i % 16
  }

  function S(i: nat): (s: nat)
    ensures 0 < s < 32
  {
    var j := i % 4;
    if i < 16 then (if j == 0 then 7 else if j == 1 then 12 else if j == 2 then 17 else 22)
    else if i < 32 then (if j == 0 then 5 else if j == 1 then 9 else if j == 2 then 14 else 20)
    else if i < 48 then (if j == 0 then 4 else if j == 1 then 11 else if j == 2 then 16 else 23)
    else (if j == 0 then 6 else if j == 1 then 10 else if j == 2 then 15 else 21)
  }

  // The bitwise functions of the RFC.

  function Complement(x: Word32): Word32 {
    0xFFFF_FFFF - x
  }

  function F(x: Word32, y: Word32, z: Word32): nat {
    Or(And(x, y), And(Complement(x), z))
  }

  function G(x: Word32, y: Word32, z: Word32): nat {
    Or(And(x, z), And(y, Complement(z)))
  }

  function H(x: Word32, y: Word32, z: Word32): nat {
    Xor(Xor(x, y), z)
  }

  function I(x: Word32, y: Word32, z: Word32): nat {
    Xor(y, Or(x, Complement(z)))
  }

  /** Words combined bit by bit stay words. */
  lemma MixBound(x: Word32, y: Word32, z: Word32)
    ensures F(x, y, z) < 0x1_0000_0000 && G(x, y, z) < 0x1_0000_0000
    ensures H(x, y, z) < 0x1_0000_0000 && I(x, y, z) < 0x1_0000_0000
  {
    hide And, Or, Xor, Pow2;
    Pow2Large();
    var c := Complement(z);
    Below(32, x, y);
    Below(32, Complement(x), z);
    Below(32, And(x, y), And(Complement(x), z));
    Below(32, x, z);
    Below(32, y, c);
    Below(32, And(x, z), And(y, c));
    Below(32, Xor(x, y), z);
    Below(32, x, c);
    Below(32, y, Or(x, c));
  }

  function Mix(i: nat, x: Word32, y: Word32, z: Word32): Word32 {
    MixBound(x, y, z);
    if i < 16 then F(x, y, z) else if i < 32 then G(x, y, z) else if i < 48 then H(x, y, z) else I(x, y, z)
  }

  datatype State = State(a: Word32, b: Word32, c: Word32, d: Word32)

  /** The operation `[wxyz k s i]` of the RFC: the new value of the first register. */
  function Operation(i: nat, w: Word32, x: Word32, y: Word32, z: Word32, block: seq<Word32>): Word32
    requires i < 64 && |block| == 16
  {
    Plus(x, Rotl(Plus(Plus(Plus(w, Mix(i, x, y, z)), block[K(i)]), T(i)), S(i)))
  }

  /** `n` operations, the registers changing places after each. */
  function Steps(st: State, block: seq<Word32>, n: nat): State
    requires n <= 64 && |block| == 16
  {
    if n == 0 then st
    else
      var s := Steps(st, block, n - 1);
      State(s.d, Operation(n - 1, s.a, s.b, s.c, s.d, block), s.b, s.c)
  }

  /** Four rounds over the sixteen words, added to the old value. */
  function Compress(st: State, block: seq<Word32>): State
    requires |block| == 16
  {
    var s := Steps(st, block, 4 * |block|);
    State(Plus(st.a, s.a), Plus(st.b, s.b), Plus(st.c, s.c), Plus(st.d, s.d))
  }

  // ---------------------------------------------------------------------------
  // The C macros
  // ---------------------------------------------------------------------------

  function F1(x: Word32, y: Word32, z: Word32): Word32 {
    Pow2Large();
    Below(32, y, z);
    Below(32, x, Xor(y, z));
    Below(32, z, And(x, Xor(y, z)));
    Xor(z, And(x, Xor(y, z)))
  }

  function F2(x: Word32, y: Word32, z: Word32): Word32 {
    F1(z, x, y)
  }

  function F3(x: Word32, y: Word32, z: Word32): Word32 {
    MixBound(x, y, z);
    Xor(Xor(x, y), z)
  }

  function F4(x: Word32, y: Word32, z: Word32): Word32 {
    MixBound(x, y, z);
    Xor(y, Or(x, Complement(z)))
  }

  /** `MD5STEP`: the new value of `w`. */
  function Md5Step(f: Word32, w: Word32, x: Word32, data: Word32, s: nat): Word32
    requires 0 < s < 32
  {
    var sum := Plus(w, Plus(f, data));
    (Or(Shl(sum, s, 32), Shr(sum, 32 - s)) + x) % 0x1_0000_0000
  }

  /** The optimised form of the choice function, one bit after the other. */
  lemma {:induction false} ChoiceBits(width: nat, x: nat, y: nat, z: nat)
    requires x < Pow2(width) && y < Pow2(width) && z < Pow2(width)
    ensures Xor(z, And(x, Xor(y, z))) == Or(And(x, y), And(Not(x, width), z))
  {
    if width > 0 {
      ChoiceBits(width - 1, x / 2, y / 2, z / 2);
      assert Not(x, width) / 2 == Not(x / 2, width - 1) && Not(x, width) % 2 == 1 - x % 2;
      hide And, Or, Xor, Pow2, Not;
      var n := Not(x, width);
      XorStep(y, z);
      AndStep(x, Xor(y, z));
      XorStep(z, And(x, Xor(y, z)));
      AndStep(x, y);
      AndStep(n, z);
      OrStep(And(x, y), And(n, z));
    }
  }

  lemma MixIsF1()
    ensures forall x: Word32, y: Word32, z: Word32 :: F1(x, y, z) == F(x, y, z)
  {
    forall x: Word32, y: Word32, z: Word32
      ensures F1(x, y, z) == F(x, y, z)
    {
      hide And, Or, Xor, Pow2;
      Pow2Large();
      ChoiceBits(32, x, y, z);
    }
  }

  lemma MixIsF2()
    ensures forall x: Word32, y: Word32, z: Word32 :: F2(x, y, z) == G(x, y, z)
  {
    forall x: Word32, y: Word32, z: Word32
      ensures F2(x, y, z) == G(x, y, z)
    {
      hide And, Or, Xor, Pow2;
      Pow2Large();
      ChoiceBits(32, z, x, y);
      AndCommutes(z, x);
      AndCommutes(Complement(z), y);
    }
  }

  lemma MixIsF3()
    ensures forall x: Word32, y: Word32, z: Word32 :: F3(x, y, z) == H(x, y, z)
  {
  }

  lemma MixIsF4()
    ensures forall x: Word32, y: Word32, z: Word32 :: F4(x, y, z) == I(x, y, z)
  {
  }

  lemma PlusAssoc(x: Word32, y: Word32, z: Word32)
    ensures Plus(x, Plus(y, z)) == Plus(Plus(x, y), z) && Plus(x, y) == Plus(y, x)
  {
  }

  /** The two shifts of the macro never overlap, so joining them rotates. */
  lemma ShiftsRotate(x: Word32, s: nat)
    requires 0 < s < 32
    ensures Or(Shl(x, s, 32), Shr(x, 32 - s)) == Rotl(x, s)
  {
    hide Or, Shr, Pow2;
    var p, q := Pow2(s), Pow2(32 - s);
    Pow2Large();
    Pow2Add(s, 32 - s);
    ShrIsDiv(x, 32 - s, q);
    var low, high := x / q, x % q;
    assert p * q == 0x1_0000_0000;
    RotateParts(x, p, q);
    OrDisjoint(s, p, low, high);
  }

  lemma MacroIsOperation()
    ensures forall f: Word32, w: Word32, x: Word32, data: Word32, t: Word32, s: nat | 0 < s < 32 ::
      Md5Step(f, w, x, Plus(data, t), s) == Plus(x, Rotl(Plus(Plus(Plus(w, f), data), t), s))
  {
    forall f: Word32, w: Word32, x: Word32, data: Word32, t: Word32, s: nat | 0 < s < 32
      ensures Md5Step(f, w, x, Plus(data, t), s) == Plus(x, Rotl(Plus(Plus(Plus(w, f), data), t), s))
    {
      hide Or, Shl, Shr, Pow2, Rotl;
      PlusAssoc(f, data, t);
      PlusAssoc(w, Plus(f, data), t);
      PlusAssoc(w, f, data);
      ShiftsRotate(Plus(w, Plus(f, Plus(data, t))), s);
    }
  }

  /** Four operations bring the registers back to their places. */
  lemma FourSteps(st: State, block: seq<Word32>, n: nat)
    requires |block| == 16 && n + 4 <= 64
    ensures var s := Steps(st, block, n);
      var a := Operation(n, s.a, s.b, s.c, s.d, block);
      var d := Operation(n + 1, s.d, a, s.b, s.c, block);
      var c := Operation(n + 2, s.c, d, a, s.b, block);
      var b := Operation(n + 3, s.b, c, d, a, block);
      Steps(st, block, n + 4) == State(a, b, c, d)
  {
    hide Operation;
    var s1, s2, s3 := Steps(st, block, n + 1), Steps(st, block, n + 2), Steps(st, block, n + 3);
  }

  method Round1(a0: Word32, b0: Word32, c0: Word32, d0: Word32, input: seq<Word32>, ghost st: State)
    returns (a: Word32, b: Word32, c: Word32, d: Word32)
    requires |input| == 16 && Steps(st, input, 0) == State(a0, b0, c0, d0)
    ensures Steps(st, input, 16) == State(a, b, c, d)
  {
    hide Steps, F, G, H, I, F1, F2, F3, F4, Rotl, Plus, Md5Step;
    MacroIsOperation();
    MixIsF1();
    a, b, c, d := a0, b0, c0, d0;
    a := Md5Step(F1(b, c, d), a, b, Plus(input[0], 0xd76aa478), 7);
    d := Md5Step(F1(a, b, c), d, a, Plus(input[1], 0xe8c7b756), 12);
    c := Md5Step(F1(d, a, b), c, d, Plus(input[2], 0x242070db), 17);
    b := Md5Step(F1(c, d, a), b, c, Plus(input[3], 0xc1bdceee), 22);
    FourSteps(st, input, 0);
    a := Md5Step(F1(b, c, d), a, b, Plus(input[4], 0xf57c0faf), 7);
    d := Md5Step(F1(a, b, c), d, a, Plus(input[5], 0x4787c62a), 12);
    c := Md5Step(F1(d, a, b), c, d, Plus(input[6], 0xa8304613), 17);
    b := Md5Step(F1(c, d, a), b, c, Plus(input[7], 0xfd469501), 22);
    FourSteps(st, input, 4);
    a := Md5Step(F1(b, c, d), a, b, Plus(input[8], 0x698098d8), 7);
    d := Md5Step(F1(a, b, c), d, a, Plus(input[9], 0x8b44f7af), 12);
    c := Md5Step(F1(d, a, b), c, d, Plus(input[10], 0xffff5bb1), 17);
    b := Md5Step(F1(c, d, a), b, c, Plus(input[11], 0x895cd7be), 22);
    FourSteps(st, input, 8);
    a := Md5Step(F1(b, c, d), a, b, Plus(input[12], 0x6b901122), 7);
    d := Md5Step(F1(a, b, c), d, a, Plus(input[13], 0xfd987193), 12);
    c := Md5Step(F1(d, a, b), c, d, Plus(input[14], 0xa679438e), 17);
    b := Md5Step(F1(c, d, a), b, c, Plus(input[15], 0x49b40821), 22);
    FourSteps(st, input, 12);
  }

  method Round2(a0: Word32, b0: Word32, c0: Word32, d0: Word32, input: seq<Word32>, ghost st: State)
    returns (a: Word32, b: Word32, c: Word32, d: Word32)
    requires |input| == 16 && Steps(st, input, 16) == State(a0, b0, c0, d0)
    ensures Steps(st, input, 32) == State(a, b, c, d)
  {
    hide Steps, F, G, H, I, F1, F2, F3, F4, Rotl, Plus, Md5Step;
    MacroIsOperation();
    MixIsF2();
    a, b, c, d := a0, b0, c0, d0;
    a := Md5Step(F2(b, c, d), a, b, Plus(input[1], 0xf61e2562), 5);
    d := Md5Step(F2(a, b, c), d, a, Plus(input[6], 0xc040b340), 9);
    c := Md5Step(F2(d, a, b), c, d, Plus(input[11], 0x265e5a51), 14);
    b := Md5Step(F2(c, d, a), b, c, Plus(input[0], 0xe9b6c7aa), 20);
    FourSteps(st, input, 16);
    a := Md5Step(F2(b, c, d), a, b, Plus(input[5], 0xd62f105d), 5);
    d := Md5Step(F2(a, b, c), d, a, Plus(input[10], 0x02441453), 9);
    c := Md5Step(F2(d, a, b), c, d, Plus(input[15], 0xd8a1e681), 14);
    b := Md5Step(F2(c, d, a), b, c, Plus(input[4], 0xe7d3fbc8), 20);
    FourSteps(st, input, 20);
    a := Md5Step(F2(b, c, d), a, b, Plus(input[9], 0x21e1cde6), 5);
    d := Md5Step(F2(a, b, c), d, a, Plus(input[14], 0xc33707d6), 9);
    c := Md5Step(F2(d, a, b), c, d, Plus(input[3], 0xf4d50d87), 14);
    b := Md5Step(F2(c, d, a), b, c, Plus(input[8], 0x455a14ed), 20);
    FourSteps(st, input, 24);
    a := Md5Step(F2(b, c, d), a, b, Plus(input[13], 0xa9e3e905), 5);
    d := Md5Step(F2(a, b, c), d, a, Plus(input[2], 0xfcefa3f8), 9);
    c := Md5Step(F2(d, a, b), c, d, Plus(input[7], 0x676f02d9), 14);
    b := Md5Step(F2(c, d, a), b, c, Plus(input[12], 0x8d2a4c8a), 20);
    FourSteps(st, input, 28);
  }

  method Round3(a0: Word32, b0: Word32, c0: Word32, d0: Word32, input: seq<Word32>, ghost st: State)
    returns (a: Word32, b: Word32, c: Word32, d: Word32)
    requires |input| == 16 && Steps(st, input, 32) == State(a0, b0, c0, d0)
    ensures Steps(st, input, 48) == State(a, b, c, d)
  {
    hide Steps, F, G, H, I, F1, F2, F3, F4, Rotl, Plus, Md5Step;
    MacroIsOperation();
    MixIsF3();
    a, b, c, d := a0, b0, c0, d0;
    a := Md5Step(F3(b, c, d), a, b, Plus(input[5], 0xfffa3942), 4);
    d := Md5Step(F3(a, b, c), d, a, Plus(input[8], 0x8771f681), 11);
    c := Md5Step(F3(d, a, b), c, d, Plus(input[11], 0x6d9d6122), 16);
    b := Md5Step(F3(c, d, a), b, c, Plus(input[14], 0xfde5380c), 23);
    FourSteps(st, input, 32);
    a := Md5Step(F3(b, c, d), a, b, Plus(input[1], 0xa4beea44), 4);
    d := Md5Step(F3(a, b, c), d, a, Plus(input[4], 0x4bdecfa9), 11);
    c := Md5Step(F3(d, a, b), c, d, Plus(input[7], 0xf6bb4b60), 16);
    b := Md5Step(F3(c, d, a), b, c, Plus(input[10], 0xbebfbc70), 23);
    FourSteps(st, input, 36);
    a := Md5Step(F3(b, c, d), a, b, Plus(input[13], 0x289b7ec6), 4);
    d := Md5Step(F3(a, b, c), d, a, Plus(input[0], 0xeaa127fa), 11);
    c := Md5Step(F3(d, a, b), c, d, Plus(input[3], 0xd4ef3085), 16);
    b := Md5Step(F3(c, d, a), b, c, Plus(input[6], 0x04881d05), 23);
    FourSteps(st, input, 40);
    a := Md5Step(F3(b, c, d), a, b, Plus(input[9], 0xd9d4d039), 4);
    d := Md5Step(F3(a, b, c), d, a, Plus(input[12], 0xe6db99e5), 11);
    c := Md5Step(F3(d, a, b), c, d, Plus(input[15], 0x1fa27cf8), 16);
    b := Md5Step(F3(c, d, a), b, c, Plus(input[2], 0xc4ac5665), 23);
    FourSteps(st, input, 44);
  }

  method Round4(a0: Word32, b0: Word32, c0: Word32, d0: Word32, input: seq<Word32>, ghost st: State)
    returns (a: Word32, b: Word32, c: Word32, d: Word32)
    requires |input| == 16 && Steps(st, input, 48) == State(a0, b0, c0, d0)
    ensures Steps(st, input, 64) == State(a, b, c, d)
  {
    hide Steps, F, G, H, I, F1, F2, F3, F4, Rotl, Plus, Md5Step;
    MacroIsOperation();
    MixIsF4();
    a, b, c, d := a0, b0, c0, d0;
    a := Md5Step(F4(b, c, d), a, b, Plus(input[0], 0xf4292244), 6);
    d := Md5Step(F4(a, b, c), d, a, Plus(input[7], 0x432aff97), 10);
    c := Md5Step(F4(d, a, b), c, d, Plus(input[14], 0xab9423a7), 15);
    b := Md5Step(F4(c, d, a), b, c, Plus(input[5], 0xfc93a039), 21);
    FourSteps(st, input, 48);
    a := Md5Step(F4(b, c, d), a, b, Plus(input[12], 0x655b59c3), 6);
    d := Md5Step(F4(a, b, c), d, a, Plus(input[3], 0x8f0ccc92), 10);
    c := Md5Step(F4(d, a, b), c, d, Plus(input[10], 0xffeff47d), 15);
    b := Md5Step(F4(c, d, a), b, c, Plus(input[1], 0x85845dd1), 21);
    FourSteps(st, input, 52);
    a := Md5Step(F4(b, c, d), a, b, Plus(input[8], 0x6fa87e4f), 6);
    d := Md5Step(F4(a, b, c), d, a, Plus(input[15], 0xfe2ce6e0), 10);
    c := Md5Step(F4(d, a, b), c, d, Plus(input[6], 0xa3014314), 15);
    b := Md5Step(F4(c, d, a), b, c, Plus(input[13], 0x4e0811a1), 21);
    FourSteps(st, input, 56);
    a := Md5Step(F4(b, c, d), a, b, Plus(input[4], 0xf7537e82), 6);
    d := Md5Step(F4(a, b, c), d, a, Plus(input[11], 0xbd3af235), 10);
    c := Md5Step(F4(d, a, b), c, d, Plus(input[2], 0x2ad7d2bb), 15);
    b := Md5Step(F4(c, d, a), b, c, Plus(input[9], 0xeb86d391), 21);
    FourSteps(st, input, 60);
  }

  // ---------------------------------------------------------------------------
  // RFC 1321, sections 3.1 to 3.5: padding, length, blocks, digest
  // ---------------------------------------------------------------------------

  datatype Host = Little | Big

  function Join(p0: Byte, p1: Byte, p2: Byte, p3: Byte): Word32 {
    p0 + 0x100 * (p1 + 0x100 * (p2 + 0x100 * p3))
  }

  /** The word at word offset `i` of a memory, as the host reads it. */
  function LoadWord(host: Host, m: seq<Byte>, i: nat): Word32
    requires 4 * i + 4 <= |m|
  {
    if host == Little then Join(m[4 * i], m[4 * i + 1], m[4 * i + 2], m[4 * i + 3])
    else Join(m[4 * i + 3], m[4 * i + 2], m[4 * i + 1], m[4 * i])
  }

  /** The four bytes by which the host stores a word. */
  function WordBytes(host: Host, w: Word32): (r: seq<Byte>)
    ensures |r| == 4
  {
    var p0, p1, p2, p3 := w % 0x100, w / 0x100 % 0x100, w / 0x100 / 0x100 % 0x100, w / 0x100 / 0x100 / 0x100;
    if host == Little then [p0, p1, p2, p3] else [p3, p2, p1, p0]
  }

  function Words(host: Host, m: seq<Byte>): (r: seq<Word32>)
    requires |m| % 4 == 0
    ensures |r| == |m| / 4
  {
    seq(|m| / 4, i requires 0 <= i < |m| / 4 => LoadWord(host, m, i))
  }

  const IV: State := State(0x67452301, 0xefcdab89, 0x98badcfe, 0x10325476)

  /** One block of bytes, its words read low byte first, into the chaining value. */
  function Block(st: State, bytes: seq<Byte>): State
    requires |bytes| == 64
  {
    Compress(st, Words(Little, bytes))
  }

  /** A whole number of 64-byte blocks. */
  predicate Aligned(n: int) {
    n % 64 == 0
  }

  /** The chaining value after the blocks of `m`; words are read low byte first. */
  function Fold(st: State, m: seq<Byte>): State
    requires Aligned(|m|)
    decreases |m|
  {
    if m == [] then st
    else
      var tail := m[64..];
      assert |tail| == |m| - 64 && Aligned(|tail|);
      Fold(Block(st, m[..64]), tail)
  }

  function Zeros(n: nat): (r: seq<Byte>)
    ensures |r| == n
  {
    seq(n, i => 0)
  }

  /** The length in bits modulo 2^64, low word first. */
  function LengthBytes(n: nat): (r: seq<Byte>)
    ensures |r| == 8
  {
    WordBytes(Little, 8 * n % 0x1_0000_0000) + WordBytes(Little, 8 * n / 0x1_0000_0000 % 0x1_0000_0000)
  }

  /** The zeros between the bit `1` and the length that complete a block. */
  function PadZeros(n: nat): (z: nat)
    ensures z < 64 && Aligned(n + 1 + z + 8)
  {
    var fill := n % 64;
    var z := if fill <= 55 then 55 - fill else 119 - fill;
    ModUnique(n + 1 + z + 8, 64, n / 64 + (if fill <= 55 then 1 else 2), 0);
    z
  }

  function Pad(m: seq<Byte>): (r: seq<Byte>)
    ensures Aligned(|r|)
  {
    var z := PadZeros(|m|);
    m + [0x80] + Zeros(z) + LengthBytes(|m|)
  }

  function DigestBytes(st: State): (r: seq<Byte>)
    ensures |r| == 16
  {
    WordBytes(Little, st.a) + WordBytes(Little, st.b) + WordBytes(Little, st.c) + WordBytes(Little, st.d)
  }

  function Md5(m: seq<Byte>): seq<Byte> {
    DigestBytes(Fold(IV, Pad(m)))
  }

  // ---------------------------------------------------------------------------
  // Blocks and words
  // ---------------------------------------------------------------------------

  lemma {:induction false} FoldAppend(st: State, m: seq<Byte>, block: seq<Byte>)
    requires Aligned(|m|) && |block| == 64
    ensures Aligned(|m| + 64) && Fold(st, m + block) == Block(Fold(st, m), block)
    decreases |m|
  {
    hide Block;
    if m == [] {
      assert m + block == block && block[..64] == block && block[64..] == [];
    } else {
      assert (m + block)[..64] == m[..64] && (m + block)[64..] == m[64..] + block;
      FoldAppend(Block(st, m[..64]), m[64..], block);
    }
  }

  lemma PopByte(p: Byte, rest: nat)
    ensures (p + 0x100 * rest) % 0x100 == p && (p + 0x100 * rest) / 0x100 == rest
  {
  }

  lemma JoinBytes(p0: Byte, p1: Byte, p2: Byte, p3: Byte)
    ensures WordBytes(Little, Join(p0, p1, p2, p3)) == [p0, p1, p2, p3]
    ensures WordBytes(Big, Join(p0, p1, p2, p3)) == [p3, p2, p1, p0]
  {
    PopByte(p0, p1 + 0x100 * (p2 + 0x100 * p3));
    PopByte(p1, p2 + 0x100 * p3);
    PopByte(p2, p3);
  }

  lemma LoadOfBytes(host: Host, m: seq<Byte>, i: nat, w: Word32)
    requires 4 * i + 4 <= |m|
    requires var b := WordBytes(host, w);
      m[4 * i] == b[0] && m[4 * i + 1] == b[1] && m[4 * i + 2] == b[2] && m[4 * i + 3] == b[3]
    ensures LoadWord(host, m, i) == w
  {
    BytesJoin(w);
  }

  lemma BytesJoin(w: Word32)
    ensures Join(w % 0x100, w / 0x100 % 0x100, w / 0x100 / 0x100 % 0x100, w / 0x100 / 0x100 / 0x100) == w
  {
  }

  /** `byteSwap`: nothing on a little-endian host, the bytes of each word reversed on a big-endian one. */
  function Swapped(host: Host, m: seq<Byte>, words: nat): (r: seq<Byte>)
    requires 4 * words <= |m|
    ensures |r| == |m|
  {
    seq(|m|, k requires 0 <= k < |m| =>
      if host == Big && k < 4 * words then m[k / 4 * 4 + (3 - k % 4)] else m[k])
  }

  /** After `byteSwap` the host reads what the bytes meant low byte first, and the other way round. */
  lemma SwapConverts(host: Host, m: seq<Byte>, words: nat, i: nat)
    requires i < words && 4 * words <= |m|
    ensures LoadWord(host, Swapped(host, m, words), i) == LoadWord(Little, m, i)
    ensures LoadWord(Little, Swapped(host, m, words), i) == LoadWord(host, m, i)
  {
    var r := Swapped(host, m, words);
    assert (4 * i) / 4 == i && (4 * i + 1) / 4 == i && (4 * i + 2) / 4 == i && (4 * i + 3) / 4 == i;
    assert (4 * i) % 4 == 0 && (4 * i + 1) % 4 == 1 && (4 * i + 2) % 4 == 2 && (4 * i + 3) % 4 == 3;
  }

  /** The word expression of `byteSwap`. */
  lemma SwapExpression(p0: Byte, p1: Byte, p2: Byte, p3: Byte)
    ensures Or(Shl(Or(Shl(p3, 8, 32), p2), 16, 32), Or(Shl(p1, 8, 32), p0)) == Join(p0, p1, p2, p3)
  {
    hide Or, Pow2;
    Pow2Small();
    Pow2Large();
    assert Shl(p3, 8, 32) == 0x100 * p3 && Shl(p1, 8, 32) == 0x100 * p1;
    OrDisjoint(8, 0x100, p2, p3);
    OrDisjoint(8, 0x100, p0, p1);
    var high: nat := 0x100 * p3 + p2;
    assert Shl(high, 16, 32) == 0x1_0000 * high;
    OrDisjoint(16, 0x1_0000, 0x100 * p1 + p0, high);
  }

  // ---------------------------------------------------------------------------
  // The context
  // ---------------------------------------------------------------------------

  /** The four chaining words held in sixteen bytes. */
  function Chain(host: Host, m: seq<Byte>): State
    requires |m| == 16
  {
    State(LoadWord(host, m, 0), LoadWord(host, m, 1), LoadWord(host, m, 2), LoadWord(host, m, 3))
  }

  method StoreWord(host: Host, mem: array<Byte>, i: nat, w: Word32)
    requires 4 * i + 4 <= mem.Length
    modifies mem
    ensures var b := WordBytes(host, w);
      mem[4 * i] == b[0] && mem[4 * i + 1] == b[1] && mem[4 * i + 2] == b[2] && mem[4 * i + 3] == b[3]
    ensures LoadWord(host, mem[..], i) == w
    ensures forall j: nat | j != i && 4 * j + 4 <= mem.Length ::
      LoadWord(host, mem[..], j) == old(LoadWord(host, mem[..], j))
    ensures forall k | 0 <= k < 4 * i || 4 * i + 4 <= k < mem.Length :: mem[k] == old(mem[k])
  {
    var b := WordBytes(host, w);
    mem[4 * i], mem[4 * i + 1], mem[4 * i + 2], mem[4 * i + 3] := b[0], b[1], b[2], b[3];
    LoadOfBytes(host, mem[..], i, w);
  }

  method ByteSwap(host: Host, mem: array<Byte>, words: nat)
    requires 0 < words && 4 * words <= mem.Length
    modifies mem
    ensures mem[..] == Swapped(host, old(mem[..]), words)
  {
    hide Or, Shl, Join, WordBytes, LoadWord, Swapped;
    var i, left := 0, words;
    ghost var m, r := mem[..], Swapped(host, mem[..], words);
    SwappedRest(host, m, words);
    while true
      invariant 0 < left && i + left == words
      invariant forall k | 0 <= k < 4 * i :: mem[k] == r[k]
      invariant forall k | 4 * i <= k < mem.Length :: mem[k] == m[k]
      decreases left
    {
      var p0, p1, p2, p3 := mem[4 * i], mem[4 * i + 1], mem[4 * i + 2], mem[4 * i + 3];
      SwapExpression(p0, p1, p2, p3);
      JoinBytes(p0, p1, p2, p3);
      SwappedWord(host, m, words, i);
      StoreWord(host, mem, i, Or(Shl(Or(Shl(p3, 8, 32), p2), 16, 32), Or(Shl(p1, 8, 32), p0)));
      i, left := i + 1, left - 1;
      if left == 0 {
        break;
      }
    }
  }

  lemma SwappedRest(host: Host, m: seq<Byte>, words: nat)
    requires 4 * words <= |m|
    ensures forall k | 4 * words <= k < |m| :: Swapped(host, m, words)[k] == m[k]
  {
  }

  lemma SwappedWord(host: Host, m: seq<Byte>, words: nat, i: nat)
    requires i < words && 4 * words <= |m|
    ensures var r := Swapped(host, m, words);
      && r[4 * i] == m[if host == Little then 4 * i else 4 * i + 3]
      && r[4 * i + 1] == m[if host == Little then 4 * i + 1 else 4 * i + 2]
      && r[4 * i + 2] == m[if host == Little then 4 * i + 2 else 4 * i + 1]
      && r[4 * i + 3] == m[if host == Little then 4 * i + 3 else 4 * i]
  {
    assert (4 * i) / 4 == i && (4 * i + 1) / 4 == i && (4 * i + 2) / 4 == i && (4 * i + 3) / 4 == i;
    assert (4 * i) % 4 == 0 && (4 * i + 1) % 4 == 1 && (4 * i + 2) % 4 == 2 && (4 * i + 3) % 4 == 3;
  }

  /** `__hsbase_MD5Transform`: the unrolled rounds are the compression function of the RFC. */
  method Transform(host: Host, buf: array<Byte>, input: array<Byte>)
    requires buf.Length == 16 && input.Length == 64 && buf != input
    modifies buf
    ensures Chain(host, buf[..]) == Compress(old(Chain(host, buf[..])), Words(host, input[..]))
  {
    hide Steps, LoadWord, Plus;
    var block := Words(host, input[..]);
    ghost var st := Chain(host, buf[..]);
    var a, b := LoadWord(host, buf[..], 0), LoadWord(host, buf[..], 1);
    var c, d := LoadWord(host, buf[..], 2), LoadWord(host, buf[..], 3);
    StepsStart(st, block);
    a, b, c, d := Round1(a, b, c, d, block, st);
    a, b, c, d := Round2(a, b, c, d, block, st);
    a, b, c, d := Round3(a, b, c, d, block, st);
    a, b, c, d := Round4(a, b, c, d, block, st);
    AddWord(host, buf, 0, a);
    AddWord(host, buf, 1, b);
    AddWord(host, buf, 2, c);
    AddWord(host, buf, 3, d);
  }

  method StoreChain(host: Host, buf: array<Byte>, a: Word32, b: Word32, c: Word32, d: Word32)
    requires buf.Length == 16
    modifies buf
    ensures Chain(host, buf[..]) == State(a, b, c, d)
  {
    hide LoadWord, WordBytes;
    StoreWord(host, buf, 0, a);
    StoreWord(host, buf, 1, b);
    StoreWord(host, buf, 2, c);
    StoreWord(host, buf, 3, d);
  }

  lemma StepsStart(st: State, block: seq<Word32>)
    requires |block| == 16
    ensures Steps(st, block, 0) == st
  {
  }

  /** `buf[i] += w` */
  method AddWord(host: Host, buf: array<Byte>, i: nat, w: Word32)
    requires buf.Length == 16 && i < 4
    modifies buf
    ensures forall j | 0 <= j < 4 ::
      LoadWord(host, buf[..], j) ==
        if j == i then Plus(old(LoadWord(host, buf[..], i)), w) else old(LoadWord(host, buf[..], j))
  {
    hide LoadWord;
    StoreWord(host, buf, i, Plus(LoadWord(host, buf[..], i), w));
  }

  method MemCpy(dst: array<Byte>, at: nat, src: seq<Byte>, from: nat, n: nat)
    requires at + n <= dst.Length && from + n <= |src|
    modifies dst
    ensures forall k | 0 <= k < dst.Length ::
      dst[k] == if at <= k < at + n then src[from + (k - at)] else old(dst[k])
  {
    forall k | at <= k < at + n {
      dst[k] := src[from + (k - at)];
    }
  }

  method MemZero(dst: array<Byte>, at: nat, n: nat)
    requires at + n <= dst.Length
    modifies dst
    ensures forall k | 0 <= k < dst.Length :: dst[k] == if at <= k < at + n then 0 else old(dst[k])
  {
    forall k | at <= k < at + n {
      dst[k] := 0;
    }
  }

  /** `st` is the chaining value after the first `n` bytes of `m`. */
  ghost predicate IsChain(st: State, m: seq<Byte>, n: int) {
    0 <= n <= |m| && Aligned(n) && st == Fold(IV, m[..n])
  }

  /** Carrying from the low count word to the high one counts bytes modulo 2^64. */
  lemma CountBytes(n: nat, len: nat, low: Word32, high: Word32)
    requires low + 0x1_0000_0000 * high == n % 0x1_0000_0000_0000_0000 && len < 0x8000_0000
    ensures var low' := (low + len) % 0x1_0000_0000;
      var high' := if low' < low then (high + 1) % 0x1_0000_0000 else high;
      low' + 0x1_0000_0000 * high' == (n + len) % 0x1_0000_0000_0000_0000
  {
    var total := low + 0x1_0000_0000 * high + len;
    assert (n + len) % 0x1_0000_0000_0000_0000 == total % 0x1_0000_0000_0000_0000;
  }

  /** The fill of the buffer can be read off the low count word. */
  lemma FillCount(n: nat, low: Word32, high: Word32)
    requires low + 0x1_0000_0000 * high == n % 0x1_0000_0000_0000_0000
    ensures And(low, 0x3f) == n % 64
  {
    hide And, Pow2;
    Pow2Small();
    AndLowMask(low, 6, 64);
    var r, q := n % 0x1_0000_0000_0000_0000, n / 0x1_0000_0000_0000_0000;
    ModUnique(n, 64, 0x400_0000_0000_0000 * q + r / 64, r % 64);
    ModUnique(r, 64, 0x400_0000 * high + low / 64, low % 64);
  }

  /** The two shifted count words are the two halves of the length in bits. */
  lemma LengthWords(n: nat, low: Word32, high: Word32)
    requires low + 0x1_0000_0000 * high == n % 0x1_0000_0000_0000_0000
    ensures Shl(low, 3, 32) == 8 * n % 0x1_0000_0000
    ensures Or(Shl(high, 3, 32), Shr(low, 29)) == 8 * n / 0x1_0000_0000 % 0x1_0000_0000
  {
    hide Or, Shr, Shl, Pow2;
    assert Shr(low, 29) == low / 0x2000_0000 by { Pow2Large(); ShrIsDiv(low, 29, 0x2000_0000); }
    LengthHalves(n, low, high);
    TimesEight(low);
    TimesEight(high);
    Pow2Small();
    OrDisjoint(3, 8, low / 0x2000_0000, high % 0x2000_0000);
  }

  lemma TimesEight(w: Word32)
    ensures Shl(w, 3, 32) == 8 * w % 0x1_0000_0000 == 8 * (w % 0x2000_0000)
  {
    hide Pow2;
    Pow2Small();
    Pow2Large();
    ModUnique(8 * w, 0x1_0000_0000, w / 0x2000_0000, 8 * (w % 0x2000_0000));
  }

  lemma LengthHalves(n: nat, low: Word32, high: Word32)
    requires low + 0x1_0000_0000 * high == n % 0x1_0000_0000_0000_0000
    ensures 8 * low % 0x1_0000_0000 == 8 * n % 0x1_0000_0000
    ensures 8 * n / 0x1_0000_0000 % 0x1_0000_0000 == 8 * (high % 0x2000_0000) + low / 0x2000_0000
  {
    var q := n / 0x1_0000_0000_0000_0000;
    var top, rest := low / 0x2000_0000, low % 0x2000_0000;
    var over, bottom := high / 0x2000_0000, high % 0x2000_0000;
    var m := 8 * q * 0x1_0000_0000 + 8 * high + top;
    assert 8 * n == m * 0x1_0000_0000 + 8 * rest;
    ModUnique(8 * n, 0x1_0000_0000, m, 8 * rest);
    ModUnique(8 * low, 0x1_0000_0000, top, 8 * rest);
    ModUnique(m, 0x1_0000_0000, 8 * q + over, 8 * bottom + top);
  }

  class Context {
    const host: Host
    const buf: array<Byte>
    var bytes0: Word32
    var bytes1: Word32
    const input: array<Byte>
    ghost var seen: seq<Byte>

    /**
     * The chaining words hold all complete blocks seen so far, the buffer starts with the
     * bytes after them, and the two count words hold the number of bytes modulo 2^64. The rest of the
     * buffer is stale.
     */
    ghost predicate Valid()
      reads this, buf, input
    {
      && Buffered(seen)
      && bytes0 + 0x1_0000_0000 * bytes1 == |seen| % 0x1_0000_0000_0000_0000
    }

    ghost predicate Buffered(m: seq<Byte>)
      reads buf, input
    {
      && Shape()
      && IsChain(Chain(host, buf[..]), m, |m| - |m| % 64)
      && input[..|m| % 64] == m[|m| - |m| % 64..]
    }

    ghost predicate Shape()
    {
      buf.Length == 16 && input.Length == 64 && buf != input
    }

    /** Uninitialised memory for a context. */
    constructor (host: Host)
      ensures Shape() && fresh(buf) && fresh(input) && this.host == host
    {
      this.host := host;
      buf := new Byte[16];
      input := new Byte[64];
    }

    method Init()
      requires Shape()
      modifies this, buf
      ensures Valid() && seen == []
    {
      hide Chain, Block;
      StoreChain(host, buf, 0x67452301, 0xefcdab89, 0x98badcfe, 0x10325476);
      bytes0 := 0;
      bytes1 := 0;
      seen := [];
    }

    /** The full buffer goes through `byteSwap` and the transform. */
    method Absorb()
      requires Shape()
      modifies buf, input
      ensures Chain(host, buf[..]) == Block(old(Chain(host, buf[..])), old(input[..]))
    {
      ByteSwap(host, input, 16);
      Transform(host, buf, input);
      SwapWords(host, old(input[..]));
    }

    /** The two count words, with the carry between them. */
    method CountUp(len: nat)
      requires bytes0 + 0x1_0000_0000 * bytes1 == |seen| % 0x1_0000_0000_0000_0000 && len < 0x8000_0000
      modifies this`bytes0, this`bytes1
      ensures bytes0 + 0x1_0000_0000 * bytes1 == (|seen| + len) % 0x1_0000_0000_0000_0000
    {
      CountBytes(|seen|, len, bytes0, bytes1);
      var t := bytes0;
      bytes0 := (t + len) % 0x1_0000_0000;
      if bytes0 < t {
        bytes1 := (bytes1 + 1) % 0x1_0000_0000;
      }
    }

    /** All whole 64-byte chunks of `data` from offset `from` on; `m` is what came before `data`. */
    method AbsorbChunks(ghost m: seq<Byte>, data: seq<Byte>, from: nat) returns (p: nat)
      requires Shape() && from <= |data| && IsChain(Chain(host, buf[..]), m + data, |m| + from)
      modifies buf, input
      ensures p <= |data| < p + 64 && IsChain(Chain(host, buf[..]), m + data, |m| + p)
    {
      hide IsChain, Block, Chain;
      p := from;
      var len := |data| - from;
      ghost var all := m + data;
      while len >= 64
        invariant 0 <= len && p + len == |data|
        invariant IsChain(Chain(host, buf[..]), all, |m| + p)
      {
        MemCpy(input, 0, data, p, 64);
        ChunkOf(m, data, p, input[..]);
        NextBlock(Chain(host, buf[..]), all, |m| + p);
        Absorb();
        p := p + 64;
        len := len - 64;
      }
    }

    /** Data that does not fill the buffer is only kept. */
    method Keep(ghost m: seq<Byte>, data: seq<Byte>, at: nat)
      requires Buffered(m) && at == |m| % 64 && at + |data| < 64
      modifies input
      ensures Buffered(m + data)
    {
      hide IsChain, Chain;
      MemCpy(input, at, data, 0, |data|);
      SameBlocks(Chain(host, buf[..]), m, data);
      assert input[..at + |data|] == m[|m| - at..] + data;
    }

    /** Data that fills the buffer completes a block, gives whole chunks, and leaves a rest. */
    method Spill(ghost m: seq<Byte>, data: seq<Byte>, t: nat)
      requires Buffered(m) && t == 64 - |m| % 64 <= |data|
      modifies buf, input
      ensures Buffered(m + data)
    {
      hide IsChain, Chain, Buffered;
      FillBlock(m, data, t);
      var p := AbsorbChunks(m, data, t);
      MemCpy(input, 0, data, p, |data| - p);
      ghost var all := m + data;
      assert input[..|data| - p] == data[p..] == all[|m| + p..];
      assert Buffered(all) by { Rest(all, |m| + p); }
    }

    method FillBlock(ghost m: seq<Byte>, data: seq<Byte>, t: nat)
      requires Buffered(m) && t == 64 - |m| % 64 <= |data|
      modifies buf, input
      ensures Shape() && IsChain(Chain(host, buf[..]), m + data, |m| + t)
    {
      hide IsChain, Chain, Block;
      MemCpy(input, 64 - t, data, 0, t);
      FilledBlock(Chain(host, buf[..]), m, data, input[..]);
      NextBlock(Chain(host, buf[..]), m + data, |m| - |m| % 64);
      Absorb();
    }

    lemma Rest(m: seq<Byte>, i: nat)
      requires Shape() && i <= |m| < i + 64
      requires IsChain(Chain(host, buf[..]), m, i)
      requires input[..|m| - i] == m[i..]
      ensures Buffered(m)
    {
      ModUnique(|m|, 64, i / 64, |m| - i);
    }

    /** `__hsbase_MD5Update` with a non-negative `int` length. */
    method Update(data: seq<Byte>)
      requires Valid() && |data| < 0x8000_0000
      modifies this, buf, input
      ensures Valid() && seen == old(seen) + data
    {
      hide Buffered, And;
      var len := |data|;
      var t := bytes0;
      FillCount(|seen|, bytes0, bytes1);
      CountUp(len);
      t := 64 - And(t, 0x3f);
      if t > len {
        Keep(seen, data, 64 - t);
        seen := seen + data;
        return;
      }
      Spill(seen, data, t);
      seen := seen + data;
    }

    /** The last block: the padded bytes as words, then the two length words. */
    method FinalBlock(ghost n: nat, ghost block: seq<Byte>)
      requires Shape() && |block| == 64 && block[56..] == LengthBytes(n)
      requires forall k | 0 <= k < 56 :: input[k] == block[k]
      requires bytes0 + 0x1_0000_0000 * bytes1 == n % 0x1_0000_0000_0000_0000
      modifies buf, input
      ensures Chain(host, buf[..]) == Block(old(Chain(host, buf[..])), block)
    {
      hide Chain, Compress, LoadWord, Swapped, WordBytes, Or, Shl, Shr, LengthBytes;
      ByteSwap(host, input, 14);
      LengthWords(n, bytes0, bytes1);
      StoreWord(host, input, 14, Shl(bytes0, 3, 32));
      StoreWord(host, input, 15, Or(Shl(bytes1, 3, 32), Shr(bytes0, 29)));
      FinalWords(host, n, old(input[..]), block, input[..]);
      Transform(host, buf, input);
    }

    /** The bit `1` and the zeros, with an extra block when there is no room for the length. */
    method PadBuffer() returns (ghost base: nat)
      requires Valid()
      modifies buf, input
      ensures Shape() && base + 64 == |Pad(seen)| && IsChain(Chain(host, buf[..]), Pad(seen), base)
      ensures forall k | 0 <= k < 56 :: input[k] == Pad(seen)[base + k]
    {
      hide Chain, IsChain, Block, And, LengthBytes, Pad;
      FillCount(|seen|, bytes0, bytes1);
      var count: int := And(bytes0, 0x3f);
      ghost var fill, padded := |seen| % 64, Pad(seen);
      base := |seen| - fill;
      PadSplit(seen);
      PadChain(Chain(host, buf[..]), seen, base);
      assert forall k | 0 <= k < fill :: input[k] == input[..fill][k] == seen[base..][k] == padded[base + k];
      var p := count;
      input[p] := 0x80;
      p := p + 1;
      count := 56 - 1 - count;
      if count < 0 {
        MemZero(input, p, count + 8);
        assert forall k | 0 <= k < 64 :: input[k] == padded[base + k];
        assert input[..] == padded[base..base + 64];
        NextBlock(Chain(host, buf[..]), padded, base);
        Absorb();
        base := base + 64;
        p := 0;
        count := 56;
      }
      MemZero(input, p, count + 8);
    }

    /** `__hsbase_MD5Final`: the digest of everything seen, and a context of zeros. */
    method Final(digest: array<Byte>)
      requires Valid() && digest.Length == 16 && digest != buf && digest != input
      modifies this, buf, input, digest
      ensures digest[..] == Md5(old(seen))
      ensures buf[..] == Zeros(16) && input[..] == Zeros(64) && bytes0 == 0 && bytes1 == 0
    {
      hide Chain, IsChain, Block, LengthBytes, Fold, Pad, DigestBytes, Swapped;
      PadSplit(seen);
      ghost var base := PadBuffer();
      ghost var padded, block := Pad(seen), Pad(seen)[base..];
      assert forall k | 0 <= k < 56 :: block[k] == padded[base + k];
      assert padded[base..base + 64] == block && block[56..] == padded[|padded| - 8..];
      NextBlock(Chain(host, buf[..]), padded, base);
      FinalBlock(|seen|, block);
      WholeChain(Chain(host, buf[..]), padded);
      ghost var words := buf[..];
      ByteSwap(host, buf, 4);
      DigestWords(host, words);
      MemCpy(digest, 0, buf[..], 0, 16);
      assert digest[..] == buf[..];
      MemZero(buf, 0, 16);
      MemZero(input, 0, 64);
      bytes0, bytes1 := 0, 0;
    }
  }

  lemma ChunkOf(m: seq<Byte>, data: seq<Byte>, p: nat, chunk: seq<Byte>)
    requires p + 64 <= |data| && |chunk| == 64 && forall k | 0 <= k < 64 :: chunk[k] == data[p + k]
    ensures (m + data)[|m| + p..|m| + p + 64] == chunk
  {
  }

  /** What padding puts behind the last complete block. */
  lemma PadSplit(m: seq<Byte>)
    ensures var fill, padded := |m| % 64, Pad(m); var base := |m| - fill;
      && padded[..|m|] == m
      && |padded| == base + (if fill <= 55 then 64 else 128)
      && padded[|m|] == 0x80
      && (forall k | |m| < k < |padded| - 8 :: padded[k] == 0)
      && padded[|padded| - 8..] == LengthBytes(|m|)
  {
    hide LengthBytes;
  }

  lemma PadChain(st: State, m: seq<Byte>, n: int)
    requires IsChain(st, m, n)
    ensures IsChain(st, Pad(m), n)
  {
    hide Fold, Aligned;
    assert Pad(m)[..n] == m[..n];
  }

  lemma WholeChain(st: State, m: seq<Byte>)
    requires IsChain(st, m, |m|)
    ensures st == Fold(IV, m)
  {
    hide Fold;
    assert m[..|m|] == m;
  }

  lemma FinalWords(host: Host, n: nat, before: seq<Byte>, block: seq<Byte>, after: seq<Byte>)
    requires |before| == |block| == |after| == 64 && block[56..] == LengthBytes(n)
    requires forall k | 0 <= k < 56 :: before[k] == block[k]
    requires forall k | 0 <= k < 56 :: after[k] == Swapped(host, before, 14)[k]
    requires LoadWord(host, after, 14) == 8 * n % 0x1_0000_0000
    requires LoadWord(host, after, 15) == 8 * n / 0x1_0000_0000 % 0x1_0000_0000
    ensures Words(host, after) == Words(Little, block)
  {
    hide WordBytes, Swapped;
    forall i | 0 <= i < 16
      ensures LoadWord(host, after, i) == LoadWord(Little, block, i)
    {
      if i < 14 {
        SwapConverts(host, before, 14, i);
      } else {
        var b := LengthBytes(n);
        assert forall k | 0 <= k < 8 :: block[56 + k] == b[k];
        LoadOfBytes(Little, block, i, if i == 14 then 8 * n % 0x1_0000_0000 else 8 * n / 0x1_0000_0000 % 0x1_0000_0000);
      }
    }
  }

  lemma DigestWords(host: Host, m: seq<Byte>)
    requires |m| == 16
    ensures Swapped(host, m, 4) == DigestBytes(Chain(host, m))
  {
    hide Swapped;
    var r := Swapped(host, m, 4);
    SwapConverts(host, m, 4, 0);
    SwapConverts(host, m, 4, 1);
    SwapConverts(host, m, 4, 2);
    SwapConverts(host, m, 4, 3);
    JoinBytes(r[0], r[1], r[2], r[3]);
    JoinBytes(r[4], r[5], r[6], r[7]);
    JoinBytes(r[8], r[9], r[10], r[11]);
    JoinBytes(r[12], r[13], r[14], r[15]);
    hide *;
  }

  // ---------------------------------------------------------------------------
  // Whole runs
  // ---------------------------------------------------------------------------

  /**
   * A context initialised, fed chunk after chunk and finished, as GHC.Fingerprint does: on every
   * host the RFC 1321 digest of the concatenation, however it is cut.
   */
  method Digest(host: Host, chunks: seq<seq<Byte>>) returns (digest: array<Byte>)
    requires forall i | 0 <= i < |chunks| :: |chunks[i]| < 0x8000_0000
    ensures digest.Length == 16 && digest[..] == Md5(Flatten(chunks))
  {
    FlattenNothing(chunks);
    hide Md5, Flatten;
    var context := new Context(host);
    context.Init();
    for i := 0 to |chunks|
      invariant context.Valid() && context.seen == Flatten(chunks[..i])
      invariant fresh(context) && fresh(context.buf) && fresh(context.input)
    {
      FlattenTo(chunks, i);
      context.Update(chunks[i]);
    }
    assert chunks[..|chunks|] == chunks;
    digest := new Byte[16];
    context.Final(digest);
  }

  /** The first chunk completes the block that the buffer had started. */
  lemma FilledBlock(st: State, seen: seq<Byte>, data: seq<Byte>, block: seq<Byte>)
    requires |block| == 64 && 64 - |seen| % 64 <= |data|
    requires block[..|seen| % 64] == seen[|seen| - |seen| % 64..] && block[|seen| % 64..] == data[..64 - |seen| % 64]
    requires IsChain(st, seen, |seen| - |seen| % 64)
    ensures var base := |seen| - |seen| % 64;
      IsChain(st, seen + data, base) && (seen + data)[base..base + 64] == block
  {
    hide Fold, Aligned;
    var fill := |seen| % 64;
    assert block == block[..fill] + block[fill..];
    assert (seen + data)[..|seen| - fill] == seen[..|seen| - fill];
  }

  lemma SwapWords(host: Host, m: seq<Byte>)
    requires |m| == 64
    ensures Words(host, Swapped(host, m, 16)) == Words(Little, m)
  {
    hide LoadWord, Swapped;
    forall i | 0 <= i < 16
      ensures LoadWord(host, Swapped(host, m, 16), i) == LoadWord(Little, m, i)
    {
      SwapConverts(host, m, 16, i);
    }
  }

  lemma SameBlocks(st: State, m: seq<Byte>, data: seq<Byte>)
    requires |m| % 64 + |data| < 64 && IsChain(st, m, |m| - |m| % 64)
    ensures |m + data| % 64 == |m| % 64 + |data| && IsChain(st, m + data, |m| - |m| % 64)
  {
    hide Fold, Aligned;
    assert (m + data)[..|m| - |m| % 64] == m[..|m| - |m| % 64];
  }

  lemma NextBlock(st: State, m: seq<Byte>, i: nat)
    requires IsChain(st, m, i) && i + 64 <= |m|
    ensures IsChain(Block(st, m[i..i + 64]), m, i + 64)
  {
    hide Fold, Block, Aligned;
    FoldAppend(IV, m[..i], m[i..i + 64]);
    assert m[..i] + m[i..i + 64] == m[..i + 64];
  }
}
