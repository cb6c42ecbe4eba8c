/**
 * The UTF-16 to UTF-8 encoder of asterius/libc/text_cbits.c, and the round trips between it
 * and the decoder.
 */
module TextEncode {
  import opened Bits
  import opened Sequences
  import opened Utf8Dfa
  import opened Unicode
  import opened TextDecode

  /** Every high surrogate the encoder meets has a unit after it, so it stays inside its input. */
  predicate Readable(units: seq<Word16>)
    decreases |units|
  {
    if units == [] then true
    else if IsHigh(units[0]) then |units| >= 2 && Readable(units[2..])
    else Readable(units[1..])
  }

  /** The number the encoder makes of a high surrogate and the unit after it. */
  function Combine(w: Word16, w': Word16): (c: nat)
    requires IsHigh(w)
    ensures 0x2400 <= c < 0x11_2000
  {
    (w - 0xD800) * 0x400 + (w' - 0xDC00) + 0x1_0000
  }

  /** The units consumed by one turn of the encoder, and the bytes it writes for them. */
  function Width(units: seq<Word16>): (n: nat)
    requires units != [] && Readable(units)
    ensures 1 <= n <= |units| && Readable(units[n..])
  {
    if IsHigh(units[0]) then 2 else 1
  }

  /** The four-byte form, with the bytes that a number beyond U+10FFFF still gives. */
  function Quad(c: nat): (r: seq<Byte>)
    requires c < 0x11_2000
  {
    [0xF0 + c / 0x40 / 0x40 / 0x40, Tail(c / 0x40 / 0x40), Tail(c / 0x40), Tail(c)]
  }

  /** The bytes for a unit and, when it is a high surrogate, the unit after it. */
  function FirstOf(w: Word16, w': Word16): seq<Byte> {
    if w < 0x80 then [w]
    else if w < 0x800 then [0xC0 + w / 0x40, Tail(w)]
    else if !IsHigh(w) then [0xE0 + w / 0x40 / 0x40, Tail(w / 0x40), Tail(w)]
    else Quad(Combine(w, w'))
  }

  function First(units: seq<Word16>): (r: seq<Byte>)
    requires units != [] && Readable(units)
    ensures 1 <= |r| <= 3 * Width(units)
  {
    FirstOf(units[0], if IsHigh(units[0]) then units[1] else 0)
  }

  /** The encoder one character at a time. */
  function Encode(units: seq<Word16>): seq<Byte>
    requires Readable(units)
    decreases |units|
  {
    if units == [] then [] else First(units) + Encode(units[Width(units)..])
  }

  // ---------------------------------------------------------------------------
  // Correctness and round trips
  // ---------------------------------------------------------------------------

  /** At most three bytes a unit, which is what callers allocate. */
  lemma {:induction false} EncodeBound(units: seq<Word16>)
    requires Readable(units)
    ensures |Encode(units)| <= 3 * |units|
    decreases |units|
  {
    if units != [] {
      EncodeBound(units[Width(units)..]);
    }
  }

  lemma FirstOfScalar(c: Scalar, rest: seq<Word16>)
    requires Readable(rest)
    ensures var units := Utf16(c) + rest;
      Readable(units) && Width(units) == |Utf16(c)| && First(units) == Utf8(c)
  {
    var units := Utf16(c) + rest;
    if c < 0x1_0000 {
      assert units[1..] == rest;
    } else {
      assert units[2..] == rest;
      assert units[0] == Utf16(c)[0] && units[1] == Utf16(c)[1];
      var v := c - 0x1_0000;
      assert v == v / 0x400 * 0x400 + v % 0x400;
      assert Combine(units[0], units[1]) == c;
    }
  }

  /** Well-formed UTF-16 encodes to the UTF-8 form of the scalars it stands for. */
  lemma {:induction false} EncodeIsUtf8(cs: seq<Scalar>)
    ensures Readable(Utf16All(cs)) && Encode(Utf16All(cs)) == Utf8All(cs)
  {
    if cs != [] {
      hide Utf8, Utf16, First, Readable;
      EncodeIsUtf8(cs[1..]);
      var rest := Utf16All(cs[1..]);
      FirstOfScalar(cs[0], rest);
      assert (Utf16(cs[0]) + rest)[|Utf16(cs[0])|..] == rest;
    }
  }

  predicate IsTail(b: Byte) {
    0x80 <= b < 0xC0
  }

  /** The six bits of a continuation byte. */
  function Six(b: Byte): int {
    b as int - 0x80
  }

  /** What any unit but a high surrogate, an unpaired low one included, puts in front of the rest. */
  lemma EncodeUnit(w: Word16, rest: seq<Word16>)
    requires !(0xD800 <= w <= 0xDBFF) && Readable(rest)
    ensures Readable([w] + rest)
    ensures var r, n := Encode([w] + rest), if w < 0x80 then 1 else if w < 0x800 then 2 else 3;
      && n <= |r| && r[n..] == Encode(rest) && (forall i | 1 <= i < n :: IsTail(r[i]))
      && (n == 1 ==> w == r[0])
      && (n == 2 ==> r[0] >= 0xC0 && w == 0x40 * (r[0] as int - 0xC0) + Six(r[1]))
      && (n == 3 ==> r[0] >= 0xE0 && w == 0x1000 * (r[0] as int - 0xE0) + 0x40 * Six(r[1]) + Six(r[2]))
  {
    assert ([w] + rest)[1..] == rest;
    hide Encode;
    UnfoldEncode([w] + rest);
  }

  /** A high surrogate takes the next unit with it, whatever that is. */
  lemma EncodePair(w: Word16, w': Word16, rest: seq<Word16>)
    requires 0xD800 <= w <= 0xDBFF && Readable(rest)
    ensures Readable([w, w'] + rest)
    ensures var r := Encode([w, w'] + rest);
      && 4 <= |r| && r[4..] == Encode(rest) && r[0] >= 0xF0 && (forall i | 1 <= i < 4 :: IsTail(r[i]))
      && 0x4_0000 * (r[0] as int - 0xF0) + 0x1000 * Six(r[1]) + 0x40 * Six(r[2]) + Six(r[3])
          == 0x1_0000 + 0x400 * (w as int - 0xD800) + (w' as int - 0xDC00)
  {
    assert ([w, w'] + rest)[2..] == rest;
    hide Encode;
    UnfoldEncode([w, w'] + rest);
    var c := Combine(w, w');
    QuadDigits(c);
    assert Encode([w, w'] + rest) == Quad(c) + Encode(rest);
    hide Quad;
  }

  lemma QuadDigits(c: nat)
    requires c < 0x11_2000
    ensures var r := Quad(c);
      && r[0] >= 0xF0 && |r| == 4 && IsTail(r[1]) && IsTail(r[2]) && IsTail(r[3])
      && 0x4_0000 * (r[0] as int - 0xF0) + 0x1000 * Six(r[1]) + 0x40 * Six(r[2]) + Six(r[3]) == c
  {
  }

  lemma {:induction false} Utf8AllLength(cs: seq<Scalar>)
    ensures |Utf8All(cs)| >= |cs|
  {
    if cs != [] {
      Utf8AllLength(cs[1..]);
    }
  }

  /** A well-formed UTF-8 buffer decodes whole, to the UTF-16 form of its scalars. */
  lemma DecodeOfUtf8(codep: Word32, cs: seq<Scalar>)
    ensures var r := Run(Decoder(ACCEPT, codep), Utf8All(cs));
      r.units == Utf16All(cs) && r.last == |Utf8All(cs)| && r.final.state == ACCEPT
  {
    hide Run, Utf8All, Utf16All, Malformed, Truncated;
    var input := Utf8All(cs);
    var r := Run(Decoder(ACCEPT, codep), input);
    DecodesLongestPrefix(codep, input);
    var found: seq<Scalar> :| IsLongestDecoding(found, input, r.last) && r.units == Utf16All(found);
    assert Utf8All(cs) <= input;
    var extra := found[|cs|..];
    assert found == cs + extra;
    Utf8AllConcat(cs, extra);
    Utf8AllLength(extra);
    assert |Utf8All(found)| == r.last;
    assert extra == [];
    assert found == cs;
    FinalState(codep, input);
  }

  /**
   * Encoding and decoding returns the same units, all bytes consumed and the accepting state
   * reached, exactly when the units are well-formed UTF-16.
   */
  lemma EncodeThenDecode(codep: Word32, units: seq<Word16>)
    requires Readable(units)
    ensures var r := Run(Decoder(ACCEPT, codep), Encode(units));
      WellFormedUtf16(units) <==>
      r.units == units && r.last == |Encode(units)| && r.final.state == ACCEPT
  {
    hide Run, Utf8All, Utf16All, Encode;
    if WellFormedUtf16(units) {
      var cs: seq<Scalar> :| Utf16All(cs) == units;
      EncodeIsUtf8(cs);
      DecodeOfUtf8(codep, cs);
    } else {
      DecodesLongestPrefix(codep, Encode(units));
    }
  }

  /**
   * Decoding and encoding returns the same bytes exactly when the buffer is well-formed UTF-8;
   * on any other buffer it returns the longest well-formed prefix.
   */
  lemma DecodeThenEncode(codep: Word32, bytes: seq<Byte>)
    ensures var r := Run(Decoder(ACCEPT, codep), bytes);
      && Readable(r.units)
      && Encode(r.units) == bytes[..r.last]
      && (WellFormedUtf8(bytes) <==> Encode(r.units) == bytes)
  {
    hide Run, Utf8All, Utf16All, Encode, Readable;
    var r := Run(Decoder(ACCEPT, codep), bytes);
    DecodesLongestPrefix(codep, bytes);
    var cs: seq<Scalar> :| IsLongestDecoding(cs, bytes, r.last) && r.units == Utf16All(cs);
    EncodeIsUtf8(cs);
    if WellFormedUtf8(bytes) {
      var cs': seq<Scalar> :| Utf8All(cs') == bytes;
      DecodeOfUtf8(codep, cs');
    }
    assert bytes[..r.last] == bytes ==> Utf8All(cs) == bytes;
  }

  // ---------------------------------------------------------------------------
  // The C loops
  // ---------------------------------------------------------------------------

  /** `i` units read and `written` bytes stored out of all that the encoder is to store. */
  ghost predicate Remaining(units: seq<Word16>, written: seq<Byte>, i: nat)
    requires Readable(units)
  {
    i <= |units| && Readable(units[i..]) && Encode(units) == written + Encode(units[i..])
  }

  lemma RemainingStart(units: seq<Word16>)
    requires Readable(units)
    ensures Remaining(units, [], 0)
  {
    assert units[0..] == units;
  }

  lemma RemainingEnd(units: seq<Word16>, written: seq<Byte>)
    requires Readable(units) && Remaining(units, written, |units|)
    ensures Encode(units) == written
  {
  }

  /** The bytes for the character at `i`. */
  function FirstAt(units: seq<Word16>, i: nat): seq<Byte>
    requires i < |units| && Readable(units[i..])
  {
    First(units[i..])
  }

  /** One turn of the encoder. */
  lemma RemainingNext(units: seq<Word16>, written: seq<Byte>, i: nat)
    requires Readable(units) && Remaining(units, written, i) && i < |units|
    ensures Readable(units[i..])
    ensures var n := if IsHigh(units[i]) then 2 else 1;
      && i + n <= |units|
      && FirstAt(units, i) == FirstOf(units[i], if n == 2 then units[i + 1] else 0)
      && Remaining(units, written + FirstAt(units, i), i + n)
      && |written| + |FirstAt(units, i)| <= |Encode(units)|
  {
    hide Encode;
    var n := Width(units[i..]);
    UnfoldEncode(units[i..]);
    assert units[i..][n..] == units[i + n..];
    Regroup(written, First(units[i..]), Encode(units[i + n..]));
  }

  lemma UnfoldEncode(units: seq<Word16>)
    requires units != [] && Readable(units)
    ensures Encode(units) == First(units) + Encode(units[Width(units)..])
  {
  }

  // The byte expressions of the C source.

  lemma LowSix(x: nat)
    ensures Or(And(x, 0x3f), 0x80) == Tail(x)
  {
    hide And, Or, Pow2;
    Pow2Small();
    AndLowMask(x, 6, 0x40);
    OrDisjoint(6, 0x40, x % 0x40, 2);
  }

  lemma Shifts(x: nat)
    ensures Shr(x, 6) == x / 0x40 && Shr(x, 12) == x / 0x40 / 0x40 && Shr(x, 18) == x / 0x40 / 0x40 / 0x40
  {
    hide Shr, Pow2;
    Pow2Small();
    ShrIsDiv(x, 6, 0x40);
    ShrShr(x, 6, 6);
    ShrIsDiv(x / 0x40, 6, 0x40);
    ShrShr(x, 12, 6);
    ShrIsDiv(x / 0x40 / 0x40, 6, 0x40);
  }

  lemma LeadMarks(x: nat)
    ensures x < 0x20 ==> Or(x, 0xC0) == 0xC0 + x
    ensures x < 0x10 ==> Or(x, 0xE0) == 0xE0 + x && Or(x, 0xF0) == 0xF0 + x
  {
    hide Or, Pow2;
    Pow2Small();
    if x < 0x20 {
      OrDisjoint(5, 0x20, x, 6);
    }
    if x < 0x10 {
      OrDisjoint(4, 0x10, x, 14);
      OrDisjoint(4, 0x10, x, 15);
    }
  }

  lemma PairWord(w: Word16, w': Word16)
    requires IsHigh(w)
    ensures (Shl(w - 0xD800, 10, 32) + (w' + 0x1_0000_0000 - 0xDC00) % 0x1_0000_0000 + 0x1_0000) % 0x1_0000_0000
      == Combine(w, w')
  {
    hide Pow2;
    Pow2Small();
    Pow2Large();
    assert Shl(w - 0xD800, 10, 32) == (w - 0xD800) * 0x400;
  }

  /** One turn of the one-character loop; `ascii` tells that the source jumps back to the fast path. */
  method EncodeOne(dest: array<Byte>, dest0: nat, src: seq<Word16>, src0: nat)
    returns (d: nat, s: nat, ascii: bool)
    requires src0 < |src| && (IsHigh(src[src0]) ==> src0 + 1 < |src|)
    requires dest0 + |FirstOf(src[src0], if IsHigh(src[src0]) then src[src0 + 1] else 0)| <= dest.Length
    modifies dest
    ensures s == src0 + if IsHigh(src[src0]) then 2 else 1
    ensures ascii <==> src[src0] < 0x80
    ensures var bytes := FirstOf(src[src0], if IsHigh(src[src0]) then src[src0 + 1] else 0);
      && d == dest0 + |bytes|
      && forall i | dest0 <= i < d :: dest[i] == bytes[i - dest0]
    ensures forall i | 0 <= i < dest0 || d <= i < dest.Length :: dest[i] == old(dest[i])
  {
    hide And, Or, Shr, Shl, Pow2, Tail;
    d, s := dest0, src0;
    var w := src[s];
    s := s + 1;
    Shifts(w);
    LowSix(w);
    LowSix(Shr(w, 6));
    ascii := false;
    if w <= 0x7F {
      dest[d] := w;
      d := d + 1;
      ascii := true;
    } else if w <= 0x7FF {
      LeadMarks(w / 0x40);
      dest[d] := Or(Shr(w, 6), 0xC0);
      d := d + 1;
      dest[d] := Or(And(w, 0x3f), 0x80);
      d := d + 1;
    } else if w < 0xD800 || w > 0xDBFF {
      LeadMarks(w / 0x40 / 0x40);
      dest[d] := Or(Shr(w, 12), 0xE0);
      d := d + 1;
      dest[d] := Or(And(Shr(w, 6), 0x3F), 0x80);
      d := d + 1;
      dest[d] := Or(And(w, 0x3F), 0x80);
      d := d + 1;
    } else {
      var low: nat := src[s];
      var c := (Shl(w - 0xD800, 10, 32) + (low + 0x1_0000_0000 - 0xDC00) % 0x1_0000_0000 + 0x1_0000) % 0x1_0000_0000;
      PairWord(w, src[s]);
      s := s + 1;
      Shifts(c);
      LowSix(c);
      LowSix(Shr(c, 6));
      LowSix(Shr(c, 12));
      LeadMarks(c / 0x40 / 0x40 / 0x40);
      dest[d] := Or(Shr(c, 18), 0xF0);
      d := d + 1;
      dest[d] := Or(And(Shr(c, 12), 0x3F), 0x80);
      d := d + 1;
      dest[d] := Or(And(Shr(c, 6), 0x3F), 0x80);
      d := d + 1;
      dest[d] := Or(And(c, 0x3F), 0x80);
      d := d + 1;
    }
  }

  // Tests on several units at once.

  /** A mask with 0xFF80 in some fields tests that the units there are ASCII. */
  lemma AsciiMask(units: seq<Word16>, masks: seq<nat>)
    requires |units| == |masks| && forall i | 0 <= i < |masks| :: masks[i] == 0 || masks[i] == 0xFF80
    ensures And(Pack(16, units), Pack(16, masks)) == 0 <==>
      forall i | 0 <= i < |units| :: masks[i] == 0xFF80 ==> units[i] < 0x80
  {
    hide And, Pow2, Pack;
    Pow2Small();
    AndPack(16, units, masks);
    var tests := seq(|units|, i requires 0 <= i < |units| => And(units[i], masks[i]));
    PackIsZero(16, tests);
    forall i | 0 <= i < |units|
      ensures tests[i] == 0 <==> (masks[i] == 0xFF80 ==> units[i] < 0x80)
    {
      UnitMask(units[i]);
      WithZero(units[i]);
    }
  }

  lemma UnitMask(w: Word16)
    ensures And(w, 0xFF80) == 0 <==> w < 0x80
  {
    hide And, Pow2;
    var low, high := w % 0x80, w / 0x80;
    assert And(high, 0x1FF) == high by {
      Pow2Small();
      AndLowMask(high, 9, 0x200);
    }
    SplitUnit(low, high);
  }

  lemma SplitUnit(low: nat, high: nat)
    requires low < 0x80
    ensures And(low + 0x80 * high, 0xFF80) == 0x80 * And(high, 0x1FF)
  {
    hide And, Pow2;
    Pow2Small();
    WithZero(low);
    Split(7, 0x80, low, high, 0, 0x1FF);
  }

  /** The four masks of the 64-bit path, and the two-unit mask of the 32-bit one, as fields. */
  lemma MaskFields()
    ensures Pack(16, [0xFF80, 0xFF80, 0xFF80, 0xFF80]) == 0xFF80FF80FF80FF80
    ensures Pack(16, [0xFF80, 0, 0, 0]) == 0x000000000000FF80
    ensures Pack(16, [0, 0xFF80, 0, 0]) == 0x00000000FF800000
    ensures Pack(16, [0, 0, 0xFF80, 0]) == 0x0000FF8000000000
  {
    hide Pow2;
    Pow2Small();
    PackFour(16, [0xFF80, 0xFF80, 0xFF80, 0xFF80]);
    PackFour(16, [0xFF80, 0, 0, 0]);
    PackFour(16, [0, 0xFF80, 0, 0]);
    PackFour(16, [0, 0, 0xFF80, 0]);
  }

  lemma UnitFields(units: seq<Word16>)
    requires |units| == 4
    ensures var w := Pack(16, units);
      && And(w, 0xFFFF) == units[0]
      && And(Shr(w, 16), 0xFFFF) == units[1]
      && And(Shr(w, 32), 0xFFFF) == units[2]
      && Shr(w, 48) == units[3]
  {
    hide And, Shr, Pow2;
    Pow2Small();
    FieldOf(16, units, 0);
    FieldOf(16, units, 1);
    FieldOf(16, units, 2);
    ShrIsDiv(Pack(16, units), 0, 1);
    PackFour(16, units);
    var w := Pack(16, units);
    ShrShr(w, 16, 32);
    ShrShr(w / 0x1_0000, 16, 16);
    ShrIsDiv(w, 16, 0x1_0000);
    ShrIsDiv(w / 0x1_0000, 16, 0x1_0000);
    ShrIsDiv(w / 0x1_0000 / 0x1_0000, 16, 0x1_0000);
  }

  lemma PairFields(units: seq<Word16>)
    requires |units| == 2
    ensures var w := Pack(16, units);
      && And(w, 0xFFFF) == units[0] && Shr(w, 16) == units[1]
      && (And(w, 0xFF80FF80) == 0 <==> units[0] < 0x80 && units[1] < 0x80)
  {
    hide And, Shr, Pow2;
    Pow2Small();
    var high: nat := units[1];
    assert units[1..][1..] == [];
    assert Pack(16, units[1..]) == high + Pow2(16) * 0;
    assert Pack(16, units) == units[0] + 0x1_0000 * high;
    var masks := [0xFF80, 0xFF80];
    assert masks[1..][1..] == [] && Pack(16, masks) == 0xFF80FF80;
    AsciiMask(units, masks);
    FieldOf(16, units, 0);
    ShrIsDiv(Pack(16, units), 0, 1);
    ShrIsDiv(Pack(16, units), 16, 0x1_0000);
  }

  /** A stretch of ASCII units is copied. */
  lemma {:induction false} RemainingAscii(units: seq<Word16>, written: seq<Byte>, i: nat, j: nat)
    requires Readable(units) && Remaining(units, written, i)
    requires i <= j <= |units| && forall k | i <= k < j :: units[k] < 0x80
    ensures Remaining(units, written + units[i..j], j) && |written| + (j - i) <= |Encode(units)|
    decreases j - i
  {
    hide Remaining, Encode, First, Tail;
    if i == j {
      assert written + units[i..j] == written;
      RemainingRoom(units, written, i);
    } else {
      RemainingNext(units, written, i);
      RemainingAscii(units, written + [units[i]], i + 1, j);
      assert written + units[i..j] == written + [units[i]] + units[i + 1..j];
    }
  }

  lemma RemainingRoom(units: seq<Word16>, written: seq<Byte>, i: nat)
    requires Readable(units) && Remaining(units, written, i)
    ensures |written| <= |Encode(units)| && i <= |units|
  {
  }

  /** `*dest++ = w & 0xFFFF` and its shifted forms: the store keeps the low eight bits. */
  method PutByte(dest: array<Byte>, d: nat, w: nat) returns (d': nat)
    requires d < dest.Length
    modifies dest
    ensures d' == d + 1 && dest[d] == w % 0x100 && (w < 0x100 ==> dest[d] == w)
    ensures forall i | 0 <= i < dest.Length && i != d :: dest[i] == old(dest[i])
  {
    dest[d] := w % 0x100;
    d' := d + 1;
  }

  /** The 64-bit path: whole words of ASCII, then the ASCII units that start the first other word. */
  method CopyWords(dest: array<Byte>, d0: nat, src: seq<Word16>, s0: nat, ghost written: seq<Byte>)
    returns (d: nat, s: nat)
    requires Readable(src) && Remaining(src, written, s0)
    requires d0 + |Encode(src)| - |written| <= dest.Length
    modifies dest
    ensures s0 <= s <= |src| && d == d0 + (s - s0) <= dest.Length
    ensures |src| - s < 4 || src[s] >= 0x80
    ensures forall i | s0 <= i < s :: src[i] < 0x80 && dest[d0 + (i - s0)] == src[i]
    ensures forall i | 0 <= i < d0 || d <= i < dest.Length :: dest[i] == old(dest[i])
  {
    hide Remaining, Encode, And, Shr, Pow2, Pack, Readable;
    d, s := d0, s0;
    RemainingRoom(src, written, s0);
    while |src| - s >= 4
      invariant s0 <= s <= |src| && d == d0 + (s - s0) <= dest.Length
      invariant forall i | s0 <= i < s :: src[i] < 0x80 && dest[d0 + (i - s0)] == src[i]
      invariant forall i | 0 <= i < d0 || d <= i < dest.Length :: dest[i] == old(dest[i])
    {
      var w := Pack(16, src[s..s + 4]);
      WordTests(src[s], src[s + 1], src[s + 2], src[s + 3]);
      assert src[s..s + 4] == [src[s], src[s + 1], src[s + 2], src[s + 3]];
      if And(w, 0xFF80FF80FF80FF80) != 0 {
        if And(w, 0x000000000000FF80) == 0 {
          RemainingAscii(src, written, s0, s + 1);
          d := PutByte(dest, d, And(w, 0xFFFF));
          s := s + 1;
          if And(w, 0x00000000FF800000) == 0 {
            RemainingAscii(src, written, s0, s + 1);
            d := PutByte(dest, d, And(Shr(w, 16), 0xFFFF));
            s := s + 1;
            if And(w, 0x0000FF8000000000) == 0 {
              RemainingAscii(src, written, s0, s + 1);
              d := PutByte(dest, d, And(Shr(w, 32), 0xFFFF));
              s := s + 1;
            }
          }
        }
        break;
      }
      RemainingAscii(src, written, s0, s + 4);
      d := PutFour(dest, d, w, src[s], src[s + 1], src[s + 2], src[s + 3]);
      s := s + 4;
    }
  }

  method PutFour(dest: array<Byte>, d: nat, w: nat, ghost a: Byte, ghost b: Byte, ghost c: Byte, ghost e: Byte)
    returns (d': nat)
    requires w == Pack(16, [a, b, c, e]) && d + 4 <= dest.Length
    modifies dest
    ensures d' == d + 4
    ensures dest[d] == a && dest[d + 1] == b && dest[d + 2] == c && dest[d + 3] == e
    ensures forall i | 0 <= i < d || d' <= i < dest.Length :: dest[i] == old(dest[i])
  {
    WordTests(a, b, c, e);
    var w0, w1, w2, w3 := And(w, 0xFFFF), And(Shr(w, 16), 0xFFFF), And(Shr(w, 32), 0xFFFF), Shr(w, 48);
    hide *;
    assert w0 == a && w1 == b && w2 == c && w3 == e;
    d' := PutByte(dest, d, w0);
    d' := PutByte(dest, d', w1);
    d' := PutByte(dest, d', w2);
    d' := PutByte(dest, d', w3);
  }

  lemma WordTests(a: Word16, b: Word16, c: Word16, e: Word16)
    ensures var w := Pack(16, [a, b, c, e]);
      && (And(w, 0xFF80FF80FF80FF80) == 0 <==> a < 0x80 && b < 0x80 && c < 0x80 && e < 0x80)
      && (And(w, 0x000000000000FF80) == 0 <==> a < 0x80)
      && (And(w, 0x00000000FF800000) == 0 <==> b < 0x80)
      && (And(w, 0x0000FF8000000000) == 0 <==> c < 0x80)
      && And(w, 0xFFFF) == a && And(Shr(w, 16), 0xFFFF) == b && And(Shr(w, 32), 0xFFFF) == c && Shr(w, 48) == e
  {
    hide And, Shr, Pow2, Pack;
    var units := [a, b, c, e];
    UnitFields(units);
    MaskFields();
    AsciiMask(units, [0xFF80, 0xFF80, 0xFF80, 0xFF80]);
    AsciiMask(units, [0xFF80, 0, 0, 0]);
    AsciiMask(units, [0, 0xFF80, 0, 0]);
    AsciiMask(units, [0, 0, 0xFF80, 0]);
  }

  /** The 32-bit path: pairs of ASCII units. */
  method CopyPairs(dest: array<Byte>, d0: nat, src: seq<Word16>, s0: nat, ghost written: seq<Byte>)
    returns (d: nat, s: nat)
    requires Readable(src) && Remaining(src, written, s0)
    requires d0 + |Encode(src)| - |written| <= dest.Length
    modifies dest
    ensures s0 <= s <= |src| && d == d0 + (s - s0) <= dest.Length
    ensures |src| - s < 2 || src[s] >= 0x80 || src[s + 1] >= 0x80
    ensures forall i | s0 <= i < s :: src[i] < 0x80 && dest[d0 + (i - s0)] == src[i]
    ensures forall i | 0 <= i < d0 || d <= i < dest.Length :: dest[i] == old(dest[i])
  {
    hide Remaining, Encode, And, Shr, Pow2, Pack, Readable;
    d, s := d0, s0;
    RemainingRoom(src, written, s0);
    while |src| - s >= 2
      invariant s0 <= s <= |src| && d == d0 + (s - s0) <= dest.Length
      invariant forall i | s0 <= i < s :: src[i] < 0x80 && dest[d0 + (i - s0)] == src[i]
      invariant forall i | 0 <= i < d0 || d <= i < dest.Length :: dest[i] == old(dest[i])
    {
      var w := Pack(16, src[s..s + 2]);
      PairFields(src[s..s + 2]);
      if And(w, 0xFF80FF80) != 0 {
        break;
      }
      RemainingAscii(src, written, s0, s + 2);
      d := PutByte(dest, d, And(w, 0xFFFF));
      d := PutByte(dest, d, Shr(w, 16));
      s := s + 2;
    }
  }

  /**
   * `_hs_text_encode_utf8`. With or without a fast path, and however often it jumps back to it,
   * it writes the bytes of the one-character encoder and nothing else.
   */
  method EncodeUtf8(arch: Arch, dest: array<Byte>, destp: nat, src: seq<Word16>, srcoff: nat, srclen: nat)
    returns (destp': nat)
    requires srcoff + srclen <= |src| && Readable(src[srcoff..srcoff + srclen])
    requires destp + |Encode(src[srcoff..srcoff + srclen])| <= dest.Length
    modifies dest
    ensures destp <= destp' <= dest.Length
    ensures dest[destp..destp'] == Encode(src[srcoff..srcoff + srclen])
    ensures forall i | 0 <= i < destp || destp' <= i < dest.Length :: dest[i] == old(dest[i])
  {
    hide Remaining, Encode, Readable, First, FirstOf;
    var units := src[srcoff..srcoff + srclen];
    var d, s := destp, 0;
    ghost var written: seq<Byte> := [];
    RemainingStart(units);
    RemainingRoom(units, written, 0);
    while true
      invariant s <= |units| && d == destp + |written| <= dest.Length
      invariant Remaining(units, written, s) && dest[destp..d] == written
      invariant forall i | 0 <= i < destp || d <= i < dest.Length :: dest[i] == old(dest[i])
      decreases |units| - s
    {
      ghost var s0, d0, before := s, d, dest[..];
      if arch.X86_64? {
        d, s := CopyWords(dest, d, units, s, written);
      } else if arch.I386? {
        d, s := CopyPairs(dest, d, units, s, written);
      }
      Extended(before, dest[..], destp, d0, d, units[s0..s]);
      RemainingAscii(units, written, s0, s);
      written := written + units[s0..s];

      var ascii := false;
      while s < |units| && !ascii
        invariant s0 <= s <= |units| && d == destp + |written| <= dest.Length
        invariant ascii ==> s0 < s
        invariant Remaining(units, written, s) && dest[destp..d] == written
        invariant forall i | 0 <= i < destp || d <= i < dest.Length :: dest[i] == old(dest[i])
        decreases |units| - s
      {
        RemainingNext(units, written, s);
        ghost var bytes, d1, now := FirstAt(units, s), d, dest[..];
        d, s, ascii := EncodeOne(dest, d, units, s);
        Extended(now, dest[..], destp, d1, d, bytes);
        written := written + bytes;
      }
      if !ascii {
        break;
      }
    }
    RemainingEnd(units, written);
    destp' := d;
  }
}
