/**
 * What RFC 1321 says of the pieces that the model of MD5 is made of, piece by piece.
 */
module Rfc1321 {
  import opened Bits
  import opened Md5

  /** Section 3.4: F, G, H and I, bit by bit. */
  lemma MixBits(x: Word32, y: Word32, z: Word32, i: nat)
    requires i < 32
    ensures var a, b, c := Bit(x, i), Bit(y, i), Bit(z, i);
      && Bit(F(x, y, z), i) == (if a == 1 then b else c)
      && Bit(G(x, y, z), i) == (if c == 1 then a else b)
      && Bit(H(x, y, z), i) == (a + b + c) % 2
      && Bit(I(x, y, z), i) == (b + (if a == 1 || c == 0 then 1 else 0)) % 2
  {
    hide And, Or, Xor, Bit, Pow2;
    ComplementBit(x, i);
    ComplementBit(z, i);
    IsBit(x, i);
    IsBit(y, i);
    IsBit(z, i);
    BitOps(x, y, i);
    BitOps(Complement(x), z, i);
    BitOps(And(x, y), And(Complement(x), z), i);
    BitOps(x, z, i);
    BitOps(y, Complement(z), i);
    BitOps(And(x, z), And(y, Complement(z)), i);
    BitOps(Xor(x, y), z, i);
    BitOps(x, Complement(z), i);
    BitOps(y, Or(x, Complement(z)), i);
  }

  lemma IsBit(x: nat, i: nat)
    ensures Bit(x, i) < 2
  {
  }

  lemma ComplementBit(x: Word32, i: nat)
    requires i < 32
    ensures Bit(Complement(x), i) == 1 - Bit(x, i)
  {
    hide Bit, Pow2;
    Pow2Large();
    BitNot(x, 32, i);
  }

  /** `x <<< s` moves every bit up by `s`, and those at the top to the bottom. */
  lemma RotateBits(x: Word32, s: nat, i: nat)
    requires 0 < s < 32 && i < 32
    ensures Bit(Rotl(x, s), (i + s) % 32) == Bit(x, i)
  {
    hide Bit, Pow2;
    Pow2Large();
    Pow2Add(s, 32 - s);
    var p, q := Pow2(s), Pow2(32 - s);
    var low, high := x / q, x % q;
    RotateParts(x, p, q);
    assert Rotl(x, s) == low + p * high;
    assert x == high + q * low;
    BitSum(s, p, low, high, (i + s) % 32);
    BitSum(32 - s, q, high, low, i);
  }

  /** Section 3.4: the words of the 64 operations, in the order they are listed there. */
  lemma WordSchedule(i: nat)
    requires i < 16
    ensures K(i) == i
    ensures K(16 + i) == [1, 6, 11, 0, 5, 10, 15, 4, 9, 14, 3, 8, 13, 2, 7, 12][i]
    ensures K(32 + i) == [5, 8, 11, 14, 1, 4, 7, 10, 13, 0, 3, 6, 9, 12, 15, 2][i]
    ensures K(48 + i) == [0, 7, 14, 5, 12, 3, 10, 1, 8, 15, 6, 13, 4, 11, 2, 9][i]
  {
  }

  /** And their rotations. */
  lemma RotationSchedule(i: nat)
    requires i < 16
    ensures S(i) == [7, 12, 17, 22][i % 4] && S(16 + i) == [5, 9, 14, 20][i % 4]
    ensures S(32 + i) == [4, 11, 16, 23][i % 4] && S(48 + i) == [6, 10, 15, 21][i % 4]
  {
  }

  /** The number that bytes denote, the low one first. */
  function LittleValue(bytes: seq<Byte>): nat {
    if bytes == [] then 0 else bytes[0] + 0x100 * LittleValue(bytes[1..])
  }

  function Word(a: nat, b: nat, c: nat, d: nat): nat {
    a + 0x100 * b + 0x1_0000 * c + 0x100_0000 * d
  }

  lemma FourBytes(four: seq<Byte>, rest: seq<Byte>)
    requires |four| == 4
    ensures LittleValue(four + rest) ==
      Word(four[0], four[1], four[2], four[3]) + 0x1_0000_0000 * LittleValue(rest)
    ensures LittleValue(four) == Word(four[0], four[1], four[2], four[3])
  {
    FourInFront(four, rest);
    FourInFront(four, []);
    assert four + [] == four;
  }

  lemma FourInFront(four: seq<Byte>, rest: seq<Byte>)
    requires |four| == 4
    ensures LittleValue(four + rest) ==
      Word(four[0], four[1], four[2], four[3]) + 0x1_0000_0000 * LittleValue(rest)
  {
    var all := four + rest;
    assert LittleValue(all) == four[0] + 0x100 * LittleValue(all[1..]);
    assert LittleValue(all[1..]) == four[1] + 0x100 * LittleValue(all[2..]) by { assert all[1..][1..] == all[2..]; }
    assert LittleValue(all[2..]) == four[2] + 0x100 * LittleValue(all[3..]) by { assert all[2..][1..] == all[3..]; }
    assert LittleValue(all[3..]) == four[3] + 0x100 * LittleValue(all[4..]) by { assert all[3..][1..] == all[4..]; }
    assert all[4..] == rest;
  }

  /** Section 3.3: the four words the digest starts from, low byte first. */
  lemma InitialWords()
    ensures IV.a == LittleValue([0x01, 0x23, 0x45, 0x67]) && IV.b == LittleValue([0x89, 0xab, 0xcd, 0xef])
    ensures IV.c == LittleValue([0xfe, 0xdc, 0xba, 0x98]) && IV.d == LittleValue([0x76, 0x54, 0x32, 0x10])
  {
    hide LittleValue;
    FourBytes([0x01, 0x23, 0x45, 0x67], []);
    FourBytes([0x89, 0xab, 0xcd, 0xef], []);
    FourBytes([0xfe, 0xdc, 0xba, 0x98], []);
    FourBytes([0x76, 0x54, 0x32, 0x10], []);
  }

  lemma WordValue(w: Word32)
    ensures LittleValue(WordBytes(Little, w)) == w
  {
    FourBytes(WordBytes(Little, w), []);
    hide LittleValue;
  }

  /** Sections 3.1 and 3.2: one bit, zeros up to 56 bytes into a block, and the length in bits. */
  lemma Padding(m: seq<Byte>)
    ensures var r, n := Pad(m), |m|;
      && |r| % 64 == 0 && n + 9 <= |r| <= n + 72
      && r[..n] == m && r[n] == 0x80 && (forall i | n < i < |r| - 8 :: r[i] == 0)
      && LittleValue(r[|r| - 8..]) == 8 * n % 0x1_0000_0000_0000_0000
  {
    hide LittleValue, LengthBytes;
    LengthValue(|m|);
    assert Pad(m)[|Pad(m)| - 8..] == LengthBytes(|m|);
  }

  lemma LengthValue(n: nat)
    ensures LittleValue(LengthBytes(n)) == 8 * n % 0x1_0000_0000_0000_0000
  {
    var low, high := 8 * n % 0x1_0000_0000, 8 * n / 0x1_0000_0000;
    var word := high % 0x1_0000_0000;
    WordValue(low);
    WordValue(word);
    FourBytes(WordBytes(Little, low), WordBytes(Little, word));
    hide LittleValue, WordBytes;
    ModUnique(8 * n, 0x1_0000_0000_0000_0000, high / 0x1_0000_0000, low + 0x1_0000_0000 * word);
  }

  /** Section 3.4: how one operation combines its four registers, and which registers it takes in turn. */
  lemma OneOperation(st: State, block: seq<Word32>, n: nat)
    requires |block| == 16 && n < 64
    ensures Steps(st, block, 0) == st
    ensures var s, s' := Steps(st, block, n), Steps(st, block, n + 1);
      var mixed := if n < 16 then F(s.b, s.c, s.d) else if n < 32 then G(s.b, s.c, s.d)
        else if n < 48 then H(s.b, s.c, s.d) else I(s.b, s.c, s.d);
      && s'.b == (s.b + Rotl((s.a + mixed + block[K(n)] + T(n)) % 0x1_0000_0000, S(n))) % 0x1_0000_0000
      && s'.c == s.b && s'.d == s.c && s'.a == s.d
  {
    hide F, G, H, I, Rotl, K, T, S;
    var s := Steps(st, block, n);
    MixBound(s.b, s.c, s.d);
    FourSummands(s.a, Mix(n, s.b, s.c, s.d), block[K(n)], T(n));
    assert Operation(n, s.a, s.b, s.c, s.d, block) ==
      Plus(s.b, Rotl((s.a + Mix(n, s.b, s.c, s.d) + block[K(n)] + T(n)) % 0x1_0000_0000, S(n)));
    hide Operation;
  }

  lemma FourSummands(w: Word32, x: Word32, y: Word32, z: Word32)
    ensures Plus(Plus(Plus(w, x), y), z) == (w + x + y + z) % 0x1_0000_0000
  {
  }

  /** The old values of the registers are added after the 64 operations, and blocks are taken in order. */
  lemma Blocks(st: State, block: seq<Byte>, rest: seq<Byte>, words: seq<Word32>)
    requires |block| == 64 && Aligned(|rest|) && |words| == 16
    requires forall i | 0 <= i < 16 :: words[i] == LittleValue(block[4 * i..4 * i + 4])
    ensures Fold(st, []) == st
    ensures Aligned(|block + rest|)
    ensures var s := Steps(st, words, 64);
      Fold(st, block + rest) ==
        Fold(State((st.a + s.a) % 0x1_0000_0000, (st.b + s.b) % 0x1_0000_0000,
                   (st.c + s.c) % 0x1_0000_0000, (st.d + s.d) % 0x1_0000_0000), rest)
  {
    hide LittleValue, Steps, Words;
    BlockWords(block, words);
    assert (block + rest)[..64] == block && (block + rest)[64..] == rest;
  }

  lemma BlockWords(block: seq<Byte>, words: seq<Word32>)
    requires |block| == 64 && |words| == 16
    requires forall i | 0 <= i < 16 :: words[i] == LittleValue(block[4 * i..4 * i + 4])
    ensures Words(Little, block) == words
  {
    hide LittleValue;
    forall i | 0 <= i < 16
      ensures Words(Little, block)[i] == words[i]
    {
      FourBytes(block[4 * i..4 * i + 4], []);
    }
  }

  /** Section 3.5: the digest is A, B, C, D, each low byte first. */
  lemma Output(st: State)
    ensures var r := DigestBytes(st);
      && LittleValue(r[..4]) == st.a && LittleValue(r[4..8]) == st.b
      && LittleValue(r[8..12]) == st.c && LittleValue(r[12..]) == st.d
  {
    hide LittleValue, WordBytes;
    WordValue(st.a);
    WordValue(st.b);
    WordValue(st.c);
    WordValue(st.d);
    var r := DigestBytes(st);
    assert r[..4] == WordBytes(Little, st.a) && r[4..8] == WordBytes(Little, st.b);
    assert r[8..12] == WordBytes(Little, st.c) && r[12..] == WordBytes(Little, st.d);
  }
}
