/**
 * Printing numbers as text: asterius/libc/itoa.c. The printers write into a caller's buffer and
 * return the position after the text; a pointer is a buffer with a position.
 */
module Itoa {
  import opened Bits

  const DIGITS := "0123456789abcdef"

  predicate IsBase(base: nat) {
    2 <= base <= 16
  }

  function Digit(d: nat): char
    requires d < 16
  {
    DIGITS[d]
  }

  // ---------------------------------------------------------------------------
  // Numerals
  // ---------------------------------------------------------------------------

  /** The digits of a number, the highest first. */
  function Numeral(n: nat, base: nat): string
    requires IsBase(base)
    decreases n
  {
    (if n < base then [] else Numeral(n / base, base)) + [Digit(n % base)]
  }

  function DigitValue(c: char): nat {
    if '0' <= c <= '9' then c as nat - '0' as nat
    else if 'a' <= c <= 'f' then c as nat - 'a' as nat + 10
    else 16
  }

  /** The number a text of digits denotes. */
  function Value(s: string, base: nat): nat {
    if s == [] then 0 else Value(s[..|s| - 1], base) * base + DigitValue(s[|s| - 1])
  }

  /** Digits only, at least one, and no spare zero in front. */
  predicate Canonical(s: string, base: nat) {
    && |s| > 0
    && (forall i | 0 <= i < |s| :: DigitValue(s[i]) < base)
    && (s[0] == '0' ==> |s| == 1)
  }

  lemma DigitOf(d: nat)
    requires d < 16
    ensures DigitValue(Digit(d)) == d && (Digit(d) == '0' <==> d == 0)
  {
  }

  lemma DigitBack(c: char)
    requires DigitValue(c) < 16
    ensures Digit(DigitValue(c)) == c
  {
  }

  /** The characters of the digits, in ASCII. */
  lemma DigitCharacter(d: nat)
    requires d < 16
    ensures Digit(d) as int == if d < 10 then 48 + d else 97 + d - 10
  {
  }

  /** A numeral is canonical and denotes its number. */
  lemma {:induction false} NumeralDenotes(n: nat, base: nat)
    requires IsBase(base)
    ensures Canonical(Numeral(n, base), base) && Value(Numeral(n, base), base) == n
    ensures n > 0 ==> Numeral(n, base)[0] != '0'
    decreases n
  {
    hide Digit, DigitValue, Numeral, Canonical, Value;
    var q, d := LastDigit(n, base);
    var high := if q == 0 then [] else Numeral(q, base);
    if q > 0 {
      NumeralDenotes(q, base);
    }
    DigitOf(d);
    ValueOfDigit(high, Digit(d), base);
    CanonicalNext(high, Digit(d), base);
  }

  lemma LastDigit(n: nat, base: nat) returns (q: nat, d: nat)
    requires IsBase(base)
    ensures d < base && n == q * base + d && (q == 0 <==> n < base) && (n > 0 ==> q < n)
    ensures Numeral(n, base) == (if q == 0 then [] else Numeral(q, base)) + [Digit(d)]
  {
    q, d := n / base, n % base;
    AtLeastOneExactly(n, base);
  }

  lemma CanonicalNext(high: string, c: char, base: nat)
    requires high == [] || (Canonical(high, base) && high[0] != '0')
    requires DigitValue(c) < base
    ensures Canonical(high + [c], base)
    ensures (high + [c])[0] == if high == [] then c else high[0]
  {
  }

  lemma ValueOfDigit(s: string, c: char, base: nat)
    ensures Value([], base) == 0
    ensures Value(s + [c], base) == Value(s, base) * base + DigitValue(c)
  {
    assert (s + [c])[..|s|] == s;
  }

  /** And it is the only text that does. */
  lemma {:induction false} CanonicalIsNumeral(s: string, base: nat)
    requires IsBase(base) && Canonical(s, base)
    ensures s == Numeral(Value(s, base), base)
    decreases |s|
  {
    var high, c := s[..|s| - 1], s[|s| - 1];
    DigitBack(c);
    assert s == high + [c];
    if |s| > 1 {
      assert Canonical(high, base);
      CanonicalIsNumeral(high, base);
      PositiveValue(high, base);
    }
    ModUnique(Value(s, base), base, Value(high, base), DigitValue(c));
    AtLeastBase(Value(high, base), base, Value(s, base));
  }

  lemma AtLeastBase(high: nat, base: nat, n: nat)
    requires base > 0 && n >= high * base
    ensures high > 0 ==> n >= base
  {
  }

  lemma {:induction false} PositiveValue(s: string, base: nat)
    requires base > 0 && |s| > 0 && s[0] != '0'
    ensures Value(s, base) > 0
    decreases |s|
  {
    if |s| > 1 {
      PositiveValue(s[..|s| - 1], base);
      assert Value(s[..|s| - 1], base) * base > 0;
    }
  }

  /** A number has at most `k` digits just when it is below `base^k`. */
  lemma {:induction false} NumeralLength(n: nat, base: nat, k: nat)
    requires IsBase(base) && k > 0
    ensures |Numeral(n, base)| <= k <==> n < Power(base, k)
    decreases k
  {
    if k == 1 {
      assert Power(base, 1) == base * Power(base, 0) == base;
      if n >= base {
        assert |Numeral(n, base)| == |Numeral(n / base, base)| + 1;
      }
    } else if n >= base {
      NumeralLength(n / base, base, k - 1);
      DivBelow(n, base, Power(base, k - 1));
    } else {
      PowerAtLeast(base, k);
    }
  }

  function Power(base: nat, k: nat): nat {
    if k == 0 then 1 else base * Power(base, k - 1)
  }

  lemma DivBelow(n: nat, base: nat, p: nat)
    requires base > 0
    ensures n < base * p <==> n / base < p
  {
    var q, r := n / base, n % base;
    assert n == base * q + r;
    if q < p {
      assert base * (q + 1) <= base * p;
    } else {
      assert base * q >= base * p;
    }
  }

  lemma {:induction false} PowerAtLeast(base: nat, k: nat)
    requires base > 0 && k > 0
    ensures Power(base, k) >= base
  {
    if k > 1 {
      PowerAtLeast(base, k - 1);
    } else {
      assert Power(base, 0) == 1;
    }
  }

  // ---------------------------------------------------------------------------
  // Signed numerals
  // ---------------------------------------------------------------------------

  function SignedNumeral(x: int): string {
    if x < 0 then ['-'] + Numeral(-x, 10) else Numeral(x, 10)
  }

  function SignedValue(s: string): int {
    if |s| > 0 && s[0] == '-' then -(Value(s[1..], 10) as int) else Value(s, 10)
  }

  predicate SignedCanonical(s: string) {
    if |s| > 0 && s[0] == '-' then Canonical(s[1..], 10) && s[1] != '0' else Canonical(s, 10)
  }

  lemma SignedNumeralDenotes(x: int)
    ensures SignedCanonical(SignedNumeral(x)) && SignedValue(SignedNumeral(x)) == x
  {
    hide Value, Numeral, DigitValue;
    if x < 0 {
      NumeralDenotes(-x, 10);
      assert SignedNumeral(x)[1..] == Numeral(-x, 10);
    } else {
      NumeralDenotes(x, 10);
      NoSign(Numeral(x, 10));
    }
  }

  lemma NoSign(s: string)
    requires Canonical(s, 10)
    ensures s[0] != '-'
  {
    assert DigitValue('-') == 16;
  }

  lemma SignedCanonicalIsNumeral(s: string)
    requires SignedCanonical(s)
    ensures s == SignedNumeral(SignedValue(s))
  {
    if s[0] == '-' {
      CanonicalIsNumeral(s[1..], 10);
      PositiveValue(s[1..], 10);
      assert s == ['-'] + s[1..];
    } else {
      CanonicalIsNumeral(s, 10);
    }
  }

  // ---------------------------------------------------------------------------
  // Limbs
  // ---------------------------------------------------------------------------

  /** The low `width` digits of a number, with zeros in front. */
  function Padded(n: nat, width: nat): (s: string)
    ensures |s| == width
  {
    if width == 0 then [] else Padded(n / 10, width - 1) + [Digit(n % 10)]
  }

  lemma {:induction false} PaddedDenotes(n: nat, width: nat)
    requires n < Power(10, width)
    ensures Value(Padded(n, width), 10) == n
  {
    if width > 0 {
      hide Digit, DigitValue;
      DivBelow(n, 10, Power(10, width - 1));
      PaddedDenotes(n / 10, width - 1);
      ValueOfDigit(Padded(n / 10, width - 1), Digit(n % 10), 10);
      DigitOf(n % 10);
    }
  }

  function LimbsValue(limbs: seq<nat>, unit: nat): nat {
    if limbs == [] then 0 else LimbsValue(limbs[..|limbs| - 1], unit) * unit + limbs[|limbs| - 1]
  }

  /** The first limb bare, the others padded. */
  function LimbsText(limbs: seq<nat>, width: nat): string
    requires |limbs| > 0
  {
    var last := |limbs| - 1;
    if last == 0 then Numeral(limbs[0], 10) else LimbsText(limbs[..last], width) + Padded(limbs[last], width)
  }

  /** Padded digits after a positive number are the digits of a longer number. */
  lemma {:induction false} NumeralThenPadded(high: nat, low: nat, width: nat)
    requires high > 0 && low < Power(10, width)
    ensures Numeral(high * Power(10, width) + low, 10) == Numeral(high, 10) + Padded(low, width)
    decreases width
  {
    if width == 0 {
      assert high * Power(10, 0) == high;
      assert Numeral(high, 10) + [] == Numeral(high, 10);
    } else {
      var p, n := Power(10, width - 1), high * Power(10, width) + low;
      DropDigit(high, low, p);
      DivBelow(low, 10, p);
      NumeralThenPadded(high, low / 10, width - 1);
      Positive(high, p, width - 1);
      assert Numeral(n, 10) == Numeral(n / 10, 10) + [Digit(n % 10)];
      hide Numeral, Digit;
      assert Padded(low, width) == Padded(low / 10, width - 1) + [Digit(low % 10)];
    }
  }

  lemma DropDigit(high: nat, low: nat, p: nat)
    ensures var n := high * (10 * p) + low;
      n / 10 == high * p + low / 10 && n % 10 == low % 10
  {
    var n := high * (10 * p) + low;
    assert high * (10 * p) == 10 * (high * p);
    ModUnique(n, 10, high * p + low / 10, low % 10);
  }

  lemma Positive(high: nat, p: nat, k: nat)
    requires high > 0 && p == Power(10, k)
    ensures high * p > 0
  {
    if k > 0 {
      PowerAtLeast(10, k);
    }
  }

  /** Printing limb by limb is the canonical text of the whole number. */
  lemma {:induction false} LimbsTextIsNumeral(limbs: seq<nat>, width: nat)
    requires |limbs| > 0 && limbs[0] > 0
    requires forall i | 0 <= i < |limbs| :: limbs[i] < Power(10, width)
    ensures LimbsValue(limbs, Power(10, width)) > 0
    ensures LimbsText(limbs, width) == Numeral(LimbsValue(limbs, Power(10, width)), 10)
    decreases |limbs|
  {
    var unit, last := Power(10, width), |limbs| - 1;
    if last == 0 {
      assert LimbsValue(limbs[..0], unit) == 0;
    } else {
      LimbsTextIsNumeral(limbs[..last], width);
      NumeralThenPadded(LimbsValue(limbs[..last], unit), limbs[last], width);
      Positive(LimbsValue(limbs[..last], unit), unit, width);
    }
  }

  // ---------------------------------------------------------------------------
  // The printers
  // ---------------------------------------------------------------------------

  /** A buffer with a text written over it at a position. */
  function Splice(buffer: string, at: nat, text: string): string
    requires at + |text| <= |buffer|
  {
    buffer[..at] + text + buffer[at + |text|..]
  }

  /** The digits of a number, the lowest first. */
  function LittleEndian(n: nat, base: nat): (s: string)
    requires IsBase(base)
    ensures |s| > 0
    decreases n
  {
    [Digit(n % base)] + (if n < base then [] else LittleEndian(n / base, base))
  }

  function Reversed(s: string): (r: string)
    ensures |r| == |s|
  {
    seq(|s|, i requires 0 <= i < |s| => s[|s| - 1 - i])
  }

  lemma {:induction false} ReversedDigits(n: nat, base: nat)
    requires IsBase(base)
    ensures Reversed(LittleEndian(n, base)) == Numeral(n, base)
    decreases n
  {
    hide Numeral, LittleEndian, Digit, Reversed;
    var q, d := LastDigit(n, base);
    NextDigit(n, base, q, d);
    if q > 0 {
      ReversedDigits(q, base);
      ReversedCons(Digit(d), LittleEndian(q, base));
    } else {
      ReversedCons(Digit(d), []);
    }
  }

  lemma ReversedCons(c: char, s: string)
    ensures Reversed([c] + s) == Reversed(s) + [c]
    ensures Reversed([]) == []
  {
  }

  /** One pass of a digit loop. */
  lemma NextDigit(n: nat, base: nat, q: nat, d: nat)
    requires IsBase(base) && n == q * base + d && d < base
    ensures n / base == q && n % base == d
    ensures LittleEndian(n, base) == [Digit(d)] + (if q == 0 then [] else LittleEndian(q, base))
  {
    ModUnique(n, base, q, d);
    AtLeastOneExactly(n, base);
  }

  /** The last loop of every unpadded printer: swap towards the middle. */
  method ReverseDigits(buf: array<char>, at: nat, end: nat)
    requires at < end <= buf.Length
    modifies buf
    ensures buf[..] == Splice(old(buf[..]), at, Reversed(old(buf[at..end])))
  {
    var low, high := at, end - 1;
    while low < high
      invariant at <= low <= high + 1 <= end && low + high == at + end - 1
      invariant forall i | 0 <= i < buf.Length ::
        buf[i] == if at <= i < low || high < i < end then old(buf[at + end - 1 - i]) else old(buf[i])
    {
      var c := buf[high];
      buf[high] := buf[low];
      buf[low] := c;
      low, high := low + 1, high - 1;
    }
  }

  /** The integer types of the printers. */
  datatype IntegerType = Int | LongLong | UInt | ULongLong
  {
    predicate Holds(v: int) {
      match this
      case Int => -0x8000_0000 <= v < 0x8000_0000
      case LongLong => -0x8000_0000_0000_0000 <= v < 0x8000_0000_0000_0000
      case UInt => 0 <= v < 0x1_0000_0000
      case ULongLong => 0 <= v < 0x1_0000_0000_0000_0000
    }

    /** The value of an operation that must stay in the type. */
    function Exact(v: int): int
      requires Holds(v)
    {
      v
    }
  }

  /** C division, towards zero. */
  function Quotient(x: int, y: int): int
    requires y > 0
  {
    if x < 0 then -(-x / y) else x / y
  }

  lemma SpliceNext(buffer: string, at: nat, text: string, c: char)
    requires at + |text| < |buffer|
    ensures Splice(buffer, at, text)[at + |text| := c] == Splice(buffer, at, text + [c])
  {
  }

  lemma SpliceNothing(buffer: string, at: nat)
    requires at <= |buffer|
    ensures Splice(buffer, at, []) == buffer
  {
  }

  lemma Regroup(text: string, c: char, rest: string)
    ensures text + ([c] + rest) == text + [c] + rest
    ensures text + [c] + [] == text + [c]
  {
  }

  lemma AtLeastOneExactly(n: nat, base: nat)
    requires base > 0
    ensures n / base == 0 <==> n < base
  {
  }

  /** `do { … } while (x)`: the decimal digits of a number that is not negative, the lowest first. */
  method EncodeDec(kind: IntegerType, n: nat, buf: array<char>, at: nat) returns (ptr: nat)
    requires kind.Holds(n) && at + |LittleEndian(n, 10)| <= buf.Length
    modifies buf
    ensures ptr == at + |LittleEndian(n, 10)|
    ensures buf[..] == Splice(old(buf[..]), at, LittleEndian(n, 10))
  {
    hide Digit, Splice, LittleEndian;
    ptr := at;
    var x: int := n;
    ghost var before, text := buf[..], "";
    SpliceNothing(before, at);
    while true
      invariant 0 <= x <= n && text + LittleEndian(x, 10) == LittleEndian(n, 10)
      invariant ptr == at + |text| && buf[..] == Splice(before, at, text)
      decreases x
    {
      NextDigit(x, 10, x / 10, x % 10);
      var xTmp := x;
      x := Quotient(x, 10);
      SpliceNext(before, at, text, Digit(xTmp % 10));
      Regroup(text, Digit(xTmp % 10), if x == 0 then [] else LittleEndian(x, 10));
      text := text + [Digit(xTmp % 10)];
      buf[ptr] := Digit(kind.Exact(xTmp - kind.Exact(x * 10)));
      ptr := ptr + 1;
      if x == 0 {
        break;
      }
    }
  }

  lemma SpliceTwice(buffer: string, at: nat, first: string, second: string)
    requires at + |first| + |second| <= |buffer|
    ensures Splice(Splice(buffer, at, first), at + |first|, second) == Splice(buffer, at, first + second)
  {
  }

  /** Reversing the digits that follow a sign. */
  lemma SpliceReversed(buffer: string, at: nat, sign: string, digits: string)
    requires at + |sign| + |digits| <= |buffer|
    ensures var written, start, end := Splice(buffer, at, sign + digits), at + |sign|, at + |sign| + |digits|;
      && written[start..end] == digits
      && Splice(written, start, Reversed(digits)) == Splice(buffer, at, sign + Reversed(digits))
  {
  }

  /** `_hs_bytestring_int_dec` and `_hs_bytestring_long_long_int_dec`. */
  method SignedDec(kind: IntegerType, x: int, buf: array<char>, at: nat) returns (next: nat)
    requires kind.Holds(x) && (kind == Int || kind == LongLong)
    requires at + |SignedNumeral(x)| <= buf.Length
    modifies buf
    ensures next == at + |SignedNumeral(x)|
    ensures buf[..] == Splice(old(buf[..]), at, SignedNumeral(x))
  {
    hide Digit, Splice, LittleEndian, Reversed, Numeral, SignedNumeral, Quotient;
    ghost var before, size := buf[..], if x < 0 then -x else x;
    ghost var sign: string, text: string := if x < 0 then "-" else "", "";
    SignedDigits(x, size);
    SpliceNothing(before, at);
    var v, ptr, start := x, at, at;
    if v < 0 {
      NextDigit(size, 10, size / 10, size % 10);
      text := [Digit(size % 10)];
      SignAndDigit(before, at, Digit(size % 10));
      NegativeDigit(x);
      buf[ptr] := '-';
      ptr := ptr + 1;
      start := start + 1;
      var xTmp := v;
      v := Quotient(v, 10);
      buf[ptr] := Digit(kind.Exact(kind.Exact(v * 10) - xTmp));
      ptr := ptr + 1;
      if v == 0 {
        SingleReversed(Digit(size % 10));
        return ptr;
      } else {
        v := kind.Exact(-v);
      }
    }
    ptr := EncodeDec(kind, v, buf, ptr);
    JoinDigits(before, at, sign, text, LittleEndian(v, 10), LittleEndian(size, 10));
    SpliceReversed(before, at, sign, LittleEndian(size, 10));
    ReverseDigits(buf, start, ptr);
    next := ptr;
  }

  lemma SignedDigits(x: int, size: nat)
    requires size == if x < 0 then -x else x
    ensures SignedNumeral(x) == (if x < 0 then "-" else "") + Reversed(LittleEndian(size, 10))
  {
    ReversedDigits(size, 10);
  }

  lemma NegativeDigit(x: int)
    requires x < 0
    ensures Quotient(x, 10) == -(-x / 10) && Quotient(x, 10) * 10 - x == -x % 10
  {
  }

  lemma SignAndDigit(buffer: string, at: nat, c: char)
    requires at + 2 <= |buffer|
    ensures buffer[at := '-'][at + 1 := c] == Splice(buffer, at, "-" + [c])
  {
  }

  lemma JoinDigits(buffer: string, at: nat, sign: string, first: string, rest: string, digits: string)
    requires first + rest == digits && at + |sign| + |digits| <= |buffer|
    ensures Splice(Splice(buffer, at, sign + first), at + |sign + first|, rest) == Splice(buffer, at, sign + digits)
  {
    SpliceTwice(buffer, at, sign + first, rest);
    assert sign + first + rest == sign + digits;
  }

  lemma SingleReversed(c: char)
    ensures Reversed([c] + []) == [c]
  {
  }

  /** `_hs_bytestring_uint_dec` and `_hs_bytestring_long_long_uint_dec`. */
  method UnsignedDec(kind: IntegerType, x: nat, buf: array<char>, at: nat) returns (next: nat)
    requires kind.Holds(x) && (kind == UInt || kind == ULongLong)
    requires at + |Numeral(x, 10)| <= buf.Length
    modifies buf
    ensures next == at + |Numeral(x, 10)|
    ensures buf[..] == Splice(old(buf[..]), at, Numeral(x, 10))
  {
    hide Splice, LittleEndian, Reversed, Numeral;
    ghost var before := buf[..];
    ReversedDigits(x, 10);
    next := EncodeDec(kind, x, buf, at);
    SpliceReversed(before, at, "", LittleEndian(x, 10));
    assert "" + LittleEndian(x, 10) == LittleEndian(x, 10);
    assert "" + Numeral(x, 10) == Numeral(x, 10);
    ReverseDigits(buf, at, next);
  }

  /** `_hs_bytestring_uint_hex` and `_hs_bytestring_long_long_uint_hex`. */
  method UnsignedHex(kind: IntegerType, n: nat, buf: array<char>, at: nat) returns (next: nat)
    requires kind.Holds(n) && (kind == UInt || kind == ULongLong)
    requires at + |Numeral(n, 16)| <= buf.Length
    modifies buf
    ensures next == at + |Numeral(n, 16)|
    ensures buf[..] == Splice(old(buf[..]), at, Numeral(n, 16))
  {
    hide Digit, Splice, LittleEndian, Reversed, Numeral, And, Shr;
    ReversedDigits(n, 16);
    var x, ptr := n, at;
    ghost var before, text := buf[..], "";
    SpliceNothing(before, at);
    while true
      invariant text + LittleEndian(x, 16) == LittleEndian(n, 16)
      invariant ptr == at + |text| && buf[..] == Splice(before, at, text)
      decreases x
    {
      Nibble(x);
      NextDigit(x, 16, x / 16, x % 16);
      SpliceNext(before, at, text, Digit(x % 16));
      Regroup(text, Digit(x % 16), if x / 16 == 0 then [] else LittleEndian(x / 16, 16));
      text := text + [Digit(x % 16)];
      buf[ptr] := Digit(And(x, 0xf));
      ptr := ptr + 1;
      x := Shr(x, 4);
      if x == 0 {
        break;
      }
    }
    SpliceReversed(before, at, "", LittleEndian(n, 16));
    assert "" + LittleEndian(n, 16) == LittleEndian(n, 16);
    assert "" + Numeral(n, 16) == Numeral(n, 16);
    ReverseDigits(buf, at, ptr);
    next := ptr;
  }

  lemma Nibble(x: nat)
    ensures And(x, 0xf) == x % 16 && Shr(x, 4) == x / 16
  {
    hide And, Shr;
    Pow2Small();
    AndLowMask(x, 4, 16);
    ShrIsDiv(x, 4, 16);
  }

  // ---------------------------------------------------------------------------
  // The padded printers
  // ---------------------------------------------------------------------------

  /** The width a padded printer fills. */
  function PadWidth(kind: IntegerType): nat {
    if kind == Int then 9 else 18
  }

  /** `_hs_bytestring_int_dec_padded9` and `_hs_bytestring_long_long_int_dec_padded18`. */
  method PaddedDec(kind: IntegerType, n: nat, buf: array<char>, at: nat)
    requires kind == Int || kind == LongLong
    requires n < Power(10, PadWidth(kind)) && at + PadWidth(kind) <= buf.Length
    modifies buf
    ensures buf[..] == Splice(old(buf[..]), at, Padded(n, PadWidth(kind)))
  {
    hide Digit, Splice, Padded, Power;
    PadUnits();
    NoPadding();
    var x: int, ptr := n, at + PadWidth(kind);
    ghost var before, text := buf[..], "";
    SpliceNothing(before, ptr);
    while true
      invariant 0 <= x <= n && at <= ptr && (ptr == at ==> x > 0) && x < Power(10, ptr - at)
      invariant ptr + |text| == at + PadWidth(kind) && buf[..] == Splice(before, ptr, text)
      invariant Padded(x, ptr - at) + text == Padded(n, PadWidth(kind))
      decreases x
    {
      PadDigit(before, x, at, ptr, text);
      var xTmp := x;
      x := Quotient(x, 10);
      ptr := ptr - 1;
      buf[ptr] := Digit(kind.Exact(xTmp - kind.Exact(x * 10)));
      text := [Digit(xTmp % 10)] + text;
      if x == 0 {
        break;
      }
    }
    while at < ptr
      invariant at <= ptr && x < Power(10, ptr - at)
      invariant ptr + |text| == at + PadWidth(kind) && buf[..] == Splice(before, ptr, text)
      invariant Padded(0, ptr - at) + text == Padded(n, PadWidth(kind))
    {
      PadDigit(before, 0, at, ptr, text);
      ptr := ptr - 1;
      buf[ptr] := '0';
      text := [Digit(0)] + text;
    }
    assert [] + text == text;
  }

  /** One digit further to the left. */
  lemma PadDigit(buffer: string, x: nat, at: nat, ptr: nat, text: string)
    requires at <= ptr && ptr + |text| <= |buffer| && x < Power(10, ptr - at) && (ptr == at ==> x > 0)
    ensures at < ptr && x / 10 < Power(10, ptr - at - 1)
    ensures Padded(x, ptr - at) + text == Padded(x / 10, ptr - at - 1) + ([Digit(x % 10)] + text)
    ensures Splice(buffer, ptr, text)[ptr - 1 := Digit(x % 10)] == Splice(buffer, ptr - 1, [Digit(x % 10)] + text)
  {
    hide Digit;
    if at < ptr {
      DivBelow(x, 10, Power(10, ptr - at - 1));
      hide Power;
      var high := Padded(x / 10, ptr - at - 1);
      assert high + [Digit(x % 10)] + text == high + ([Digit(x % 10)] + text);
    }
  }

  lemma NoPadding()
    ensures Padded(0, 0) == [] && Digit(0) == '0'
  {
  }

  lemma PadUnits()
    ensures Power(10, 9) == 1_000_000_000 && Power(10, 18) == 1_000_000_000_000_000_000
  {
    assert Power(10, 3) == 1000;
    assert Power(10, 6) == 1_000_000;
    assert Power(10, 9) == 1_000_000_000;
    assert Power(10, 12) == 1_000_000_000_000;
    assert Power(10, 15) == 1_000_000_000_000_000;
  }

  // ---------------------------------------------------------------------------
  // The functions of the source
  // ---------------------------------------------------------------------------

  type Int32 = x: int | -2147483648 <= x <= 2147483647
  type Int64 = x: int | -9223372036854775808 <= x <= 9223372036854775807

  /** The ranges of the four types. */
  lemma Ranges(v: int)
    ensures IntegerType.Int.Holds(v) <==> -2147483648 <= v <= 2147483647
    ensures LongLong.Holds(v) <==> -9223372036854775808 <= v <= 9223372036854775807
    ensures UInt.Holds(v) <==> 0 <= v <= 4294967295
    ensures ULongLong.Holds(v) <==> 0 <= v <= 18446744073709551615
  {
  }

  /** A buffer after `text` was put at `at`: the text, and everything else as before. */
  ghost predicate Written(before: string, after: string, at: nat, text: string) {
    && |after| == |before| && at + |text| <= |after|
    && (forall i | 0 <= i < |text| :: after[at + i] == text[i])
    && (forall i | 0 <= i < |after| && !(at <= i < at + |text|) :: after[i] == before[i])
  }

  lemma SpliceWrites(before: string, at: nat, text: string)
    requires at + |text| <= |before|
    ensures Written(before, Splice(before, at, text), at, text)
  {
  }

  /** `_hs_bytestring_int_dec` */
  method IntDec(x: Int32, buf: array<char>, at: nat) returns (next: nat)
    requires at + |SignedNumeral(x)| <= buf.Length
    modifies buf
    ensures next == at + |SignedNumeral(x)| && Written(old(buf[..]), buf[..], at, SignedNumeral(x))
  {
    hide Written, Splice, SignedNumeral;
    next := SignedDec(Int, x, buf, at);
    SpliceWrites(old(buf[..]), at, SignedNumeral(x));
  }

  /** `_hs_bytestring_long_long_int_dec` */
  method LongLongIntDec(x: Int64, buf: array<char>, at: nat) returns (next: nat)
    requires at + |SignedNumeral(x)| <= buf.Length
    modifies buf
    ensures next == at + |SignedNumeral(x)| && Written(old(buf[..]), buf[..], at, SignedNumeral(x))
  {
    hide Written, Splice, SignedNumeral;
    next := SignedDec(LongLong, x, buf, at);
    SpliceWrites(old(buf[..]), at, SignedNumeral(x));
  }

  /** `_hs_bytestring_uint_dec` */
  method UintDec(x: Word32, buf: array<char>, at: nat) returns (next: nat)
    requires at + |Numeral(x, 10)| <= buf.Length
    modifies buf
    ensures next == at + |Numeral(x, 10)| && Written(old(buf[..]), buf[..], at, Numeral(x, 10))
  {
    hide Written, Splice, Numeral;
    next := UnsignedDec(UInt, x, buf, at);
    SpliceWrites(old(buf[..]), at, Numeral(x, 10));
  }

  /** `_hs_bytestring_long_long_uint_dec` */
  method LongLongUintDec(x: Word64, buf: array<char>, at: nat) returns (next: nat)
    requires at + |Numeral(x, 10)| <= buf.Length
    modifies buf
    ensures next == at + |Numeral(x, 10)| && Written(old(buf[..]), buf[..], at, Numeral(x, 10))
  {
    hide Written, Splice, Numeral;
    next := UnsignedDec(ULongLong, x, buf, at);
    SpliceWrites(old(buf[..]), at, Numeral(x, 10));
  }

  /** `_hs_bytestring_uint_hex` */
  method UintHex(x: Word32, buf: array<char>, at: nat) returns (next: nat)
    requires at + |Numeral(x, 16)| <= buf.Length
    modifies buf
    ensures next == at + |Numeral(x, 16)| && Written(old(buf[..]), buf[..], at, Numeral(x, 16))
  {
    hide Written, Splice, Numeral;
    next := UnsignedHex(UInt, x, buf, at);
    SpliceWrites(old(buf[..]), at, Numeral(x, 16));
  }

  /** `_hs_bytestring_long_long_uint_hex` */
  method LongLongUintHex(x: Word64, buf: array<char>, at: nat) returns (next: nat)
    requires at + |Numeral(x, 16)| <= buf.Length
    modifies buf
    ensures next == at + |Numeral(x, 16)| && Written(old(buf[..]), buf[..], at, Numeral(x, 16))
  {
    hide Written, Splice, Numeral;
    next := UnsignedHex(ULongLong, x, buf, at);
    SpliceWrites(old(buf[..]), at, Numeral(x, 16));
  }

  /** `_hs_bytestring_int_dec_padded9`: nine digits that denote the number. */
  method IntDecPadded9(x: nat, buf: array<char>, at: nat)
    requires x < 1_000_000_000 && at + 9 <= buf.Length
    modifies buf
    ensures Value(buf[at..at + 9], 10) == x && forall i | at <= i < at + 9 :: '0' <= buf[i] <= '9'
    ensures Written(old(buf[..]), buf[..], at, buf[at..at + 9]) && buf[at..at + 9] == Padded(x, 9)
  {
    hide Written, Splice, Padded, Value, Power;
    PadUnits();
    PaddedDec(Int, x, buf, at);
    PaddedDenotes(x, 9);
    PaddedDigits(x, 9);
    SpliceWrites(old(buf[..]), at, Padded(x, 9));
    TextWritten(old(buf[..]), buf[..], at, Padded(x, 9));
    assert buf[..][at..at + 9] == buf[at..at + 9];
    assert forall i | at <= i < at + 9 :: buf[i] == Padded(x, 9)[i - at];
  }

  /** `_hs_bytestring_long_long_int_dec_padded18`: eighteen digits that denote the number. */
  method LongLongIntDecPadded18(x: nat, buf: array<char>, at: nat)
    requires x < 1_000_000_000_000_000_000 && at + 18 <= buf.Length
    modifies buf
    ensures Value(buf[at..at + 18], 10) == x && forall i | at <= i < at + 18 :: '0' <= buf[i] <= '9'
    ensures Written(old(buf[..]), buf[..], at, buf[at..at + 18]) && buf[at..at + 18] == Padded(x, 18)
  {
    hide Written, Splice, Padded, Value, Power;
    PadUnits();
    PaddedDec(LongLong, x, buf, at);
    PaddedDenotes(x, 18);
    PaddedDigits(x, 18);
    SpliceWrites(old(buf[..]), at, Padded(x, 18));
    TextWritten(old(buf[..]), buf[..], at, Padded(x, 18));
    assert buf[..][at..at + 18] == buf[at..at + 18];
    assert forall i | at <= i < at + 18 :: buf[i] == Padded(x, 18)[i - at];
  }

  lemma TextWritten(before: string, after: string, at: nat, text: string)
    requires Written(before, after, at, text)
    ensures at + |text| <= |after| && after[at..at + |text|] == text
  {
  }

  lemma {:induction false} PaddedDigits(n: nat, width: nat)
    ensures forall i | 0 <= i < width :: '0' <= Padded(n, width)[i] <= '9'
  {
    if width > 0 {
      PaddedDigits(n / 10, width - 1);
      DecimalDigit(n % 10);
    }
  }

  lemma DecimalDigit(d: nat)
    requires d < 10
    ensures '0' <= Digit(d) <= '9'
  {
  }

  /**
   * How the two padded printers are meant to be used: a big number whose limbs are in base 10^9 or
   * 10^18, the first printed bare and the others padded, comes out as its canonical decimal.
   */
  method BignumDec(wide: bool, limbs: seq<nat>, buf: array<char>, at: nat) returns (next: nat)
    requires |limbs| > 0 && limbs[0] > 0
    requires forall i | 0 <= i < |limbs| :: limbs[i] < if wide then 1_000_000_000_000_000_000 else 1_000_000_000
    requires at + |LimbsText(limbs, if wide then 18 else 9)| <= buf.Length
    modifies buf
    ensures var unit := if wide then 1_000_000_000_000_000_000 else 1_000_000_000;
      var text := Numeral(LimbsValue(limbs, unit), 10);
      next == at + |text| && Written(old(buf[..]), buf[..], at, text)
  {
    hide Written, Splice, Padded, Power, Numeral, LimbsText, LimbsValue;
    PadUnits();
    ghost var width, before := if wide then 18 else 9, buf[..];
    LimbsTextIsNumeral(limbs, width);
    LimbsTextFirst(limbs, width);
    LimbsTextGrows(limbs, 1, width);
    next := SignedDec(if wide then LongLong else Int, limbs[0], buf, at);
    var i := 1;
    while i < |limbs|
      invariant 1 <= i <= |limbs| && next == at + |LimbsText(limbs[..i], width)| <= buf.Length
      invariant buf[..] == Splice(before, at, LimbsText(limbs[..i], width))
    {
      LimbsTextNext(limbs, i, width);
      LimbsTextGrows(limbs, i + 1, width);
      SpliceTwice(before, at, LimbsText(limbs[..i], width), Padded(limbs[i], width));
      if wide {
        PaddedDec(LongLong, limbs[i], buf, next);
        next := next + 18;
      } else {
        PaddedDec(Int, limbs[i], buf, next);
        next := next + 9;
      }
      i := i + 1;
    }
    assert limbs[..i] == limbs;
    SpliceWrites(before, at, LimbsText(limbs, width));
  }

  lemma LimbsTextFirst(limbs: seq<nat>, width: nat)
    requires |limbs| > 0
    ensures LimbsText(limbs[..1], width) == Numeral(limbs[0], 10) == SignedNumeral(limbs[0])
  {
  }

  lemma LimbsTextNext(limbs: seq<nat>, i: nat, width: nat)
    requires 0 < i < |limbs|
    ensures LimbsText(limbs[..i + 1], width) == LimbsText(limbs[..i], width) + Padded(limbs[i], width)
  {
    assert limbs[..i + 1][..i] == limbs[..i];
  }

  lemma {:induction false} LimbsTextGrows(limbs: seq<nat>, i: nat, width: nat)
    requires 0 < i <= |limbs|
    ensures |LimbsText(limbs[..i], width)| <= |LimbsText(limbs, width)|
    decreases |limbs| - i
  {
    if i == |limbs| {
      assert limbs[..i] == limbs;
    } else {
      LimbsTextNext(limbs, i, width);
      LimbsTextGrows(limbs, i + 1, width);
    }
  }
}
