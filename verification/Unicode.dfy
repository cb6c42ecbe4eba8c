/**
 * UTF-8 (RFC 3629, sections 3 and 4) and UTF-16 (RFC 2781, section 2.1) as functions on
 * scalar values, independent of any codec, and how the states of the table-driven
 * automaton stand for prefixes of encodings.
 */
module Unicode {
  import opened Bits
  import opened Utf8Dfa

  predicate IsScalar(c: nat) {
    c < 0x11_0000 && !(0xD800 <= c < 0xE000)
  }

  /** The units of a surrogate pair. */
  predicate IsHigh(w: nat) {
    0xD800 <= w <= 0xDBFF
  }

  predicate IsLow(w: nat) {
    0xDC00 <= w <= 0xDFFF
  }

  type Scalar = c: nat | c < 0x11_0000 && !(0xD800 <= c < 0xE000)

  /** The continuation byte for the six low bits of `c`. */
  function Tail(c: nat): (r: Byte) {
    0x80 + c % 0x40
  }

  function Utf8(c: Scalar): (r: seq<Byte>)
    ensures 1 <= |r| <= 4
  {
    if c < 0x80 then [c]
    else if c < 0x800 then [0xC0 + c / 0x40, Tail(c)]
    else if c < 0x1_0000 then [0xE0 + c / 0x40 / 0x40, Tail(c / 0x40), Tail(c)]
    else [0xF0 + c / 0x40 / 0x40 / 0x40, Tail(c / 0x40 / 0x40), Tail(c / 0x40), Tail(c)]
  }

  function Utf16(c: Scalar): (r: seq<Word16>)
    ensures 1 <= |r| <= 2
  {
    if c < 0x1_0000 then [c]
    else
      var v := c - 0x1_0000;
      assert v / 0x400 < 0x400;
      [0xD800 + v / 0x400, 0xDC00 + v % 0x400]
  }

  function Utf8All(cs: seq<Scalar>): seq<Byte> {
    if cs == [] then [] else Utf8(cs[0]) + Utf8All(cs[1..])
  }

  function Utf16All(cs: seq<Scalar>): seq<Word16> {
    if cs == [] then [] else Utf16(cs[0]) + Utf16All(cs[1..])
  }

  ghost predicate WellFormedUtf16(units: seq<Word16>) {
    exists cs :: Utf16All(cs) == units
  }

  ghost predicate WellFormedUtf8(bytes: seq<Byte>) {
    exists cs :: Utf8All(cs) == bytes
  }

  /** The examples of RFC 3629 section 7 and RFC 2781 section 4.2. */
  lemma Examples()
    ensures Utf8(0x41) == [0x41] && Utf8(0x391) == [0xCE, 0x91] && Utf8(0x2262) == [0xE2, 0x89, 0xA2]
    ensures Utf8(0x65E5) == [0xE6, 0x97, 0xA5] && Utf8(0x2_33B4) == [0xF0, 0xA3, 0x8E, 0xB4]
    ensures Utf16(0x52) == [0x52] && Utf16(0x1_2345) == [0xD808, 0xDF45]
  {
  }

  /** A nonempty, incomplete beginning of one encoding. */
  ghost predicate Truncated(rest: seq<Byte>) {
    rest != [] && exists c: Scalar :: rest < Utf8(c)
  }

  /** No continuation of `rest` starts with a well-formed encoding. */
  ghost predicate Malformed(rest: seq<Byte>) {
    rest != [] && forall c: Scalar :: !(rest <= Utf8(c)) && !(Utf8(c) <= rest)
  }

  // ---------------------------------------------------------------------------
  // Encodings form a prefix code
  // ---------------------------------------------------------------------------

  lemma SameDigits(c: nat, c': nat)
    ensures Tail(c) == Tail(c') && c / 0x40 == c' / 0x40 ==> c == c'
  {
  }

  lemma PrefixFree(c: Scalar, c': Scalar)
    requires Utf8(c) <= Utf8(c')
    ensures c == c'
  {
    var u, v := Utf8(c), Utf8(c');
    assert u[0] == v[0];
    assert |u| == |v|;
    assert |u| >= 2 ==> u[1] == v[1];
    assert |u| >= 3 ==> u[2] == v[2];
    assert |u| == 4 ==> u[3] == v[3];
    SameDigits(c, c');
    SameDigits(c / 0x40, c' / 0x40);
    SameDigits(c / 0x40 / 0x40, c' / 0x40 / 0x40);
  }

  lemma AllCons(c: Scalar, cs: seq<Scalar>)
    ensures Utf8All([c] + cs) == Utf8(c) + Utf8All(cs)
    ensures Utf16All([c] + cs) == Utf16(c) + Utf16All(cs)
  {
    assert ([c] + cs)[1..] == cs;
  }

  lemma {:induction false} Utf8AllConcat(cs: seq<Scalar>, cs': seq<Scalar>)
    ensures Utf8All(cs + cs') == Utf8All(cs) + Utf8All(cs')
  {
    if cs == [] {
      assert [] + cs' == cs';
    } else {
      assert (cs + cs')[1..] == cs[1..] + cs';
      Utf8AllConcat(cs[1..], cs');
    }
  }

  lemma {:induction false} Utf16AllConcat(cs: seq<Scalar>, cs': seq<Scalar>)
    ensures Utf16All(cs + cs') == Utf16All(cs) + Utf16All(cs')
  {
    if cs == [] {
      assert [] + cs' == cs';
    } else {
      assert (cs + cs')[1..] == cs[1..] + cs';
      Utf16AllConcat(cs[1..], cs');
    }
  }

  // ---------------------------------------------------------------------------
  // Automaton states as prefixes of encodings
  // ---------------------------------------------------------------------------

  /** The states and code points the automaton can be in between two bytes, short of rejecting. */
  predicate Coherent(d: Decoder) {
    || d.state == ACCEPT
    || (d.state == 24 && 2 <= d.codep < 0x4400 && !(0x360 <= d.codep < 0x380))
    || (d.state == 36 && 1 <= d.codep < 0x110 && d.codep != 0xD)
    || (d.state == 48 && d.codep == 0)
    || (d.state == 60 && d.codep == 0xD)
    || (d.state == 72 && d.codep == 0)
    || (d.state == 84 && 1 <= d.codep <= 3)
    || (d.state == 96 && d.codep == 4)
  }

  /** The bytes read since the last complete character. */
  function Pending(d: Decoder): (r: seq<Byte>)
    requires Coherent(d)
    ensures |r| <= 3
    ensures r == [] <==> d.state == ACCEPT
  {
    var c := d.codep;
    if d.state == ACCEPT then []
    else if d.state == 24 then
      if c < 0x20 then [0xC0 + c]
      else if c < 0x400 then [0xE0 + c / 0x40, Tail(c)]
      else [0xF0 + c / 0x40 / 0x40, Tail(c / 0x40), Tail(c)]
    else if d.state == 36 then
      if c < 0x10 then [0xE0 + c]
      else [0xF0 + c / 0x40, Tail(c)]
    else if d.state == 48 || d.state == 60 then [0xE0 + c]
    else [0xF0 + c]
  }

  /** A continuation byte takes in six bits, which one division gives back. */
  lemma Payload(d: Decoder, b: Byte)
    requires Coherent(d) && d.state != ACCEPT && 0x80 <= b < 0xC0
    ensures var c := d.codep * 0x40 + (b - 0x80);
      && Step(d, b) == Decoder(NextState(d.state, b), c)
      && c / 0x40 == d.codep && Tail(c) == b
  {
  }

  /** A byte that keeps the automaton alive extends the pending prefix, or completes it. */
  lemma StepSound(d: Decoder, b: Byte)
    requires Coherent(d)
    ensures var r := Step(d, b);
      && (r.state == ACCEPT ==> IsScalar(r.codep) && Utf8(r.codep) == Pending(d) + [b])
      && (r.state != ACCEPT && r.state != REJECT ==> Coherent(r) && Pending(r) == Pending(d) + [b])
  {
    if d.state == ACCEPT {
      FirstByte(d, b);
    } else if 0x80 <= b < 0xC0 {
      hide Pending, Utf8;
      if d.state == 24 {
        LastByte(d, b);
      } else {
        MiddleByte(d, b);
      }
    }
  }

  lemma FirstByte(d: Decoder, b: Byte)
    requires d.state == ACCEPT
    ensures var r := Step(d, b);
      && (r.state == ACCEPT ==> IsScalar(r.codep) && Utf8(r.codep) == [b])
      && (r.state != ACCEPT && r.state != REJECT ==> Coherent(r) && Pending(r) == [b])
  {
  }

  lemma LastByte(d: Decoder, b: Byte)
    requires Coherent(d) && d.state == 24 && 0x80 <= b < 0xC0
    ensures var r := Step(d, b); IsScalar(r.codep) && Utf8(r.codep) == Pending(d) + [b]
  {
    Payload(d, b);
    hide Tail, Step;
  }

  lemma MiddleByte(d: Decoder, b: Byte)
    requires Coherent(d) && d.state != ACCEPT && d.state != 24 && 0x80 <= b < 0xC0
    ensures var r := Step(d, b);
      r.state != ACCEPT && (r.state != REJECT ==> Coherent(r) && Pending(r) == Pending(d) + [b])
  {
    if d.state == 36 {
      ThirdLast(d, b);
    } else if d.state == 48 || d.state == 60 {
      SecondOfThree(d, b);
    } else {
      SecondOfFour(d, b);
    }
  }

  lemma ThirdLast(d: Decoder, b: Byte)
    requires Coherent(d) && d.state == 36 && 0x80 <= b < 0xC0
    ensures var r := Step(d, b);
      r.state != ACCEPT && (r.state != REJECT ==> Coherent(r) && Pending(r) == Pending(d) + [b])
  {
    Payload(d, b);
    hide Tail, Step;
  }

  lemma SecondOfThree(d: Decoder, b: Byte)
    requires Coherent(d) && (d.state == 48 || d.state == 60) && 0x80 <= b < 0xC0
    ensures var r := Step(d, b);
      r.state != ACCEPT && (r.state != REJECT ==> Coherent(r) && Pending(r) == Pending(d) + [b])
  {
    Payload(d, b);
    hide Tail, Step;
  }

  lemma SecondOfFour(d: Decoder, b: Byte)
    requires Coherent(d) && d.state >= 72 && 0x80 <= b < 0xC0
    ensures var r := Step(d, b);
      r.state != ACCEPT && (r.state != REJECT ==> Coherent(r) && Pending(r) == Pending(d) + [b])
  {
    Payload(d, b);
    hide Tail, Step;
  }

  /** A byte that rejects was the end of every encoding with that prefix. */
  lemma StepComplete(d: Decoder, b: Byte, c: Scalar)
    requires Coherent(d) && Pending(d) + [b] <= Utf8(c)
    ensures Step(d, b).state != REJECT
  {
    var p, u := Pending(d) + [b], Utf8(c);
    assert p[0] == u[0];
    if d.state == 24 {
      assert p[|p| - 1] == u[|p| - 1];
    } else if d.state == 36 {
      assert |p| == 3 ==> p[1] == u[1] && p[2] == u[2];
      assert |p| == 2 ==> p[1] == u[1];
    } else if d.state != ACCEPT {
      assert p[1] == u[1];
      SecondByte(c);
    }
  }

  /** The second bytes that section 4 of RFC 3629 allows after the lead bytes that restrict them. */
  lemma SecondByte(c: Scalar)
    requires |Utf8(c)| >= 2
    ensures var u := Utf8(c);
      && 0x80 <= u[1] < 0xC0
      && (u[0] == 0xE0 ==> u[1] >= 0xA0)
      && (u[0] == 0xED ==> u[1] < 0xA0)
      && (u[0] == 0xF0 ==> u[1] >= 0x90)
      && (u[0] == 0xF4 ==> u[1] < 0x90)
  {
  }

  /** A pending prefix can always be completed. */
  lemma PendingIsTruncated(d: Decoder)
    requires Coherent(d) && d.state != ACCEPT
    ensures Truncated(Pending(d))
    decreases 3 - |Pending(d)|
  {
    if d.state == 24 {
      LastByte(d, 0x80);
      assert Pending(d) < Utf8(Step(d, 0x80).codep);
    } else {
      var b := if d.state == 48 then 0xA0 else if d.state == 72 then 0x90 else 0x80;
      MiddleByte(d, b);
      PendingIsTruncated(Step(d, b));
      var c: Scalar :| Pending(d) + [b] < Utf8(c);
      assert Pending(d) < Utf8(c);
    }
  }
}
