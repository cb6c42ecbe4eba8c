/**
 * The JSON string unescaper of asterius/libc/unescape_string.c: a label machine layered over
 * the UTF-8 automaton.
 */
module JsonString {
  import opened Bits
  import opened Sequences
  import opened Utf8Dfa
  import opened Unicode
  import opened TextDecode

  const BACKSLASH: Byte := 0x5C
  const LETTER_U: Byte := 0x75

  // ---------------------------------------------------------------------------
  // The language accepted (compare section 7 of RFC 8259)
  // ---------------------------------------------------------------------------

  /** `decode_hex` */
  function DecodeHex(c: nat): (r: Word16) {
    if 0x30 <= c <= 0x39 then c - 0x30
    else if 0x61 <= c <= 0x66 then c - 0x61 + 10
    else if 0x41 <= c <= 0x46 then c - 0x41 + 10
    else 0xFFFF
  }

  predicate IsShort(e: Byte) {
    e == 0x22 || e == 0x5C || e == 0x2F || e == 0x62 || e == 0x66 || e == 0x6E || e == 0x72 || e == 0x74
  }

  /** The control character a short escape stands for, or the character itself. */
  function ShortMeaning(e: Byte): (r: Scalar)
    requires IsShort(e)
    ensures r < 0x80
  {
    if e == 0x62 then 8
    else if e == 0x66 then 12
    else if e == 0x6E then 10
    else if e == 0x72 then 13
    else if e == 0x74 then 9
    else e
  }

  /** Four hexadecimal digits at offset `i`. */
  predicate IsHex4(text: seq<Byte>, i: nat) {
    && i + 4 <= |text|
    && DecodeHex(text[i]) < 16 && DecodeHex(text[i + 1]) < 16
    && DecodeHex(text[i + 2]) < 16 && DecodeHex(text[i + 3]) < 16
  }

  function Hex4(text: seq<Byte>, i: nat): (r: Word16)
    requires IsHex4(text, i)
  {
    0x1000 * DecodeHex(text[i]) + 0x100 * DecodeHex(text[i + 1])
    + 0x10 * DecodeHex(text[i + 2]) + DecodeHex(text[i + 3])
  }

  /** One item of a string: a character, a short escape, a `\uXXXX`, or a surrogate pair of them. */
  datatype Item =
    | Raw(c: Scalar)
    | Short(e: Byte)
    | Hex(h: seq<Byte>)
    | Pair(high: seq<Byte>, low: seq<Byte>)
  {
    predicate Valid() {
      match this
      case Raw(c) => c != BACKSLASH
      case Short(e) => IsShort(e)
      case Hex(h) => |h| == 4 && IsHex4(h, 0) && !IsHigh(Hex4(h, 0)) && !IsLow(Hex4(h, 0))
      case Pair(h, l) => |h| == 4 && |l| == 4 && IsHex4(h, 0) && IsHex4(l, 0) && IsHigh(Hex4(h, 0)) && IsLow(Hex4(l, 0))
    }

    function Text(): (r: seq<Byte>)
      ensures r != []
    {
      match this
      case Raw(c) => Utf8(c)
      case Short(e) => [BACKSLASH, e]
      case Hex(h) => [BACKSLASH, LETTER_U] + h
      case Pair(h, l) => [BACKSLASH, LETTER_U] + h + [BACKSLASH, LETTER_U] + l
    }

    function Meaning(): Scalar
      requires Valid()
    {
      match this
      case Raw(c) => c
      case Short(e) => ShortMeaning(e)
      case Hex(h) => Hex4(h, 0)
      case Pair(h, l) => 0x1_0000 + (Hex4(h, 0) - 0xD800) * 0x400 + (Hex4(l, 0) - 0xDC00)
    }
  }

  predicate AllValid(items: seq<Item>) {
    forall i | 0 <= i < |items| :: items[i].Valid()
  }

  function TextAll(items: seq<Item>): seq<Byte> {
    if items == [] then [] else items[0].Text() + TextAll(items[1..])
  }

  function MeaningAll(items: seq<Item>): seq<Scalar>
    requires AllValid(items)
  {
    seq(|items|, i requires 0 <= i < |items| => items[i].Meaning())
  }

  // ---------------------------------------------------------------------------
  // Reading from the left
  // ---------------------------------------------------------------------------

  /** What reading gives: an error, all of the input, or all of it with an unfinished character at the end. */
  datatype Reading = Bad | Cut(units: seq<Word16>) | Good(units: seq<Word16>)

  function Add(units: seq<Word16>, r: Reading): Reading {
    match r
    case Bad => Bad
    case Cut(more) => Cut(units + more)
    case Good(more) => Good(units + more)
  }

  /** Reading characters from automaton state `d`. */
  function Read(d: Decoder, input: seq<Byte>): Reading
    requires IsState(d.state)
    decreases |input|
  {
    if input == [] then
      if d.state == ACCEPT then Good([]) else Cut([])
    else
      var d' := Step(d, input[0]);
      if d'.state == REJECT then Bad
      else if d'.state != ACCEPT then Read(d', input[1..])
      else if d'.codep == BACKSLASH then Escape(input[1..])
      else Add(Emit(d'.codep), Read(d', input[1..]))
  }

  /** Reading on after a backslash. */
  function Escape(rest: seq<Byte>): Reading
    decreases |rest|
  {
    if rest == [] then Bad
    else if IsShort(rest[0]) then Add([ShortMeaning(rest[0])], Read(Decoder(ACCEPT, 0), rest[1..]))
    else if rest[0] != LETTER_U || !IsHex4(rest, 1) then Bad
    else
      var v := Hex4(rest, 1);
      if IsHigh(v) then
        if |rest| >= 7 && rest[5] == BACKSLASH && rest[6] == LETTER_U && IsHex4(rest, 7) && IsLow(Hex4(rest, 7)) then
          Add([v, Hex4(rest, 7)], Read(Decoder(ACCEPT, 0), rest[11..]))
        else Bad
      else if IsLow(v) then Bad
      else Add([v], Read(Decoder(ACCEPT, 0), rest[5..]))
  }

  // ---------------------------------------------------------------------------
  // Reading finds exactly the items
  // ---------------------------------------------------------------------------

  /** The reading that items followed by `rest` ought to give. */
  ghost function Expected(items: seq<Item>, rest: seq<Byte>): Reading
    requires AllValid(items)
  {
    if rest == [] then Good(Utf16All(MeaningAll(items))) else Cut(Utf16All(MeaningAll(items)))
  }

  lemma ExpectedCons(item: Item, items: seq<Item>, rest: seq<Byte>)
    requires item.Valid() && AllValid(items)
    ensures AllValid([item] + items)
    ensures TextAll([item] + items) == item.Text() + TextAll(items)
    ensures Expected([item] + items, rest) == Add(Utf16(item.Meaning()), Expected(items, rest))
  {
    hide Utf16;
    assert ([item] + items)[1..] == items;
    assert MeaningAll([item] + items) == [item.Meaning()] + MeaningAll(items);
    AllCons(item.Meaning(), MeaningAll(items));
  }

  lemma EscapeText(item: Item, tail: seq<Byte>)
    requires item.Valid() && !item.Raw?
    ensures item.Text()[0] == BACKSLASH
    ensures Escape(item.Text()[1..] + tail) == Add(Utf16(item.Meaning()), Read(Decoder(ACCEPT, 0), tail))
  {
    hide Read, Utf16, Hex4, IsHex4;
    match item
    case Short(e) =>
      assert item.Text()[1..] + tail == [e] + tail;
      OneUnit(ShortMeaning(e));
    case Hex(h) =>
      HexText(h, tail);
      OneUnit(Hex4(h, 0));
    case Pair(h, l) =>
      PairText(h, l, tail);
      PairUtf16(Hex4(h, 0), Hex4(l, 0));
  }

  lemma OneUnit(c: Scalar)
    requires c < 0x1_0000
    ensures Utf16(c) == [c]
  {
  }

  lemma HexText(h: seq<Byte>, tail: seq<Byte>)
    requires |h| == 4 && IsHex4(h, 0) && !IsHigh(Hex4(h, 0)) && !IsLow(Hex4(h, 0))
    ensures Escape(Item.Hex(h).Text()[1..] + tail) == Add([Hex4(h, 0)], Read(Decoder(ACCEPT, 0), tail))
  {
    hide Read, Hex4, IsHex4;
    var rest := [LETTER_U] + h + tail;
    assert Item.Hex(h).Text()[1..] + tail == rest;
    assert rest[1..5] == h && rest[5..] == tail;
    SliceHex(rest, 1, h);
  }

  lemma PairText(h: seq<Byte>, l: seq<Byte>, tail: seq<Byte>)
    requires |h| == 4 && |l| == 4 && IsHex4(h, 0) && IsHex4(l, 0) && IsHigh(Hex4(h, 0)) && IsLow(Hex4(l, 0))
    ensures Escape(Item.Pair(h, l).Text()[1..] + tail) ==
      Add([Hex4(h, 0), Hex4(l, 0)], Read(Decoder(ACCEPT, 0), tail))
  {
    hide Read, Hex4, IsHex4, Escape;
    var rest := [LETTER_U] + h + [BACKSLASH, LETTER_U] + l + tail;
    assert Item.Pair(h, l).Text()[1..] + tail == rest;
    assert rest[1..5] == h && rest[7..11] == l && rest[11..] == tail;
    SliceHex(rest, 1, h);
    SliceHex(rest, 7, l);
    EscapePair(rest);
  }

  lemma EscapePair(rest: seq<Byte>)
    requires |rest| >= 11 && rest[0] == rest[6] == LETTER_U && rest[5] == BACKSLASH
    requires IsHex4(rest, 1) && IsHex4(rest, 7) && IsHigh(Hex4(rest, 1)) && IsLow(Hex4(rest, 7))
    ensures Escape(rest) == Add([Hex4(rest, 1), Hex4(rest, 7)], Read(Decoder(ACCEPT, 0), rest[11..]))
  {
    hide Read, Hex4, IsHex4;
  }

  lemma SliceHex(rest: seq<Byte>, i: nat, h: seq<Byte>)
    requires i + 4 <= |rest| && rest[i..i + 4] == h
    ensures IsHex4(rest, i) == IsHex4(h, 0)
    ensures IsHex4(h, 0) ==> Hex4(rest, i) == Hex4(h, 0)
  {
    assert h[0] == rest[i] && h[1] == rest[i + 1] && h[2] == rest[i + 2] && h[3] == rest[i + 3];
  }

  lemma PairUtf16(v: Word16, v': Word16)
    requires IsHigh(v) && IsLow(v')
    ensures var c := 0x1_0000 + (v - 0xD800) * 0x400 + (v' - 0xDC00); IsScalar(c) && Utf16(c) == [v, v']
  {
  }

  lemma OldState(d: Decoder, input: seq<Byte>)
    requires d.state == ACCEPT
    ensures Read(d, input) == Read(Decoder(ACCEPT, 0), input)
  {
  }

  /** Reading one byte that does not end a character. */
  lemma ReadPending(d: Decoder, input: seq<Byte>)
    requires IsState(d.state) && input != []
    ensures var d' := Step(d, input[0]);
      && (d'.state == REJECT ==> Read(d, input) == Bad)
      && (d'.state != REJECT && d'.state != ACCEPT ==> Read(d, input) == Read(d', input[1..]))
      && (d'.state == ACCEPT && d'.codep == BACKSLASH ==> Read(d, input) == Escape(input[1..]))
      && (d'.state == ACCEPT && d'.codep != BACKSLASH ==>
            Read(d, input) == Add(Emit(d'.codep), Read(Decoder(ACCEPT, 0), input[1..])))
  {
    if Step(d, input[0]).state == ACCEPT {
      OldState(Step(d, input[0]), input[1..]);
    }
  }

  /** Bytes that begin the encoding of `c` keep the automaton alive and end it only at `c`. */
  lemma StepInside(d: Decoder, b: Byte, c: Scalar, all: seq<Byte>)
    requires Coherent(d) && Pending(d) + [b] <= all && Utf8(c) <= all
    ensures var d' := Step(d, b);
      && d'.state != REJECT
      && (d'.state == ACCEPT ==> d'.codep == c && Pending(d) + [b] == Utf8(c))
      && (d'.state != ACCEPT ==> Coherent(d') && Pending(d') == Pending(d) + [b])
  {
    hide Step, Utf8, Pending;
    var p, u := Pending(d) + [b], Utf8(c);
    if |u| <= |Pending(d)| {
      assert u == all[..|u|] == Pending(d)[..|u|];
      PendingHoldsNoCharacter(d, c);
    }
    assert p == all[..|p|] == u[..|p|];
    StepComplete(d, b, c);
    StepSound(d, b);
    if Step(d, b).state == ACCEPT {
      PrefixFree(Step(d, b).codep, c);
    }
  }

  /** Every text that is made of items, with or without an unfinished character behind, is read as such. */
  lemma {:induction false} ReadComplete(d: Decoder, input: seq<Byte>, items: seq<Item>, rest: seq<Byte>)
    requires Coherent(d) && AllValid(items) && (rest == [] || Truncated(rest))
    requires Pending(d) + input == TextAll(items) + rest
    ensures Read(d, input) == Expected(items, rest)
    decreases |input|
  {
    if items == [] {
      ReadTail(d, input, rest);
    } else {
      var item, tail := items[0], TextAll(items[1..]) + rest;
      assert item.Valid() && TextAll(items) == item.Text() + TextAll(items[1..]);
      assert AllValid(items[1..]);
      hide *;
      Regroup(item.Text(), TextAll(items[1..]), rest);
      ReadItem(d, input, item, tail);
      Fresh(tail);
      ReadComplete(Decoder(ACCEPT, 0), tail, items[1..], rest);
      ExpectedCons(item, items[1..], rest);
      assert items == [item] + items[1..];
    }
  }

  lemma ReadItem(d: Decoder, input: seq<Byte>, item: Item, tail: seq<Byte>)
    requires Coherent(d) && item.Valid() && Pending(d) + input == item.Text() + tail
    ensures |tail| < |input|
    ensures Read(d, input) == Add(Utf16(item.Meaning()), Read(Decoder(ACCEPT, 0), tail))
  {
    if item.Raw? {
      ReadCharacter(d, input, item.c, tail);
      EmitIsUtf16(item.c);
    } else {
      ReadEscape(d, input, item, tail);
    }
  }

  lemma ReadEscape(d: Decoder, input: seq<Byte>, item: Item, tail: seq<Byte>)
    requires Coherent(d) && item.Valid() && !item.Raw? && Pending(d) + input == item.Text() + tail
    ensures |tail| < |input|
    ensures Read(d, input) == Add(Utf16(item.Meaning()), Read(Decoder(ACCEPT, 0), tail))
  {
    hide *;
    var all, text := Pending(d) + input, item.Text();
    EscapeText(item, tail);
    EscapeStart(d, input, all);
    assert all == input;
    assert input[1..] == text[1..] + tail;
  }

  /** Reading up to the end of one character. */
  lemma {:induction false} ReadCharacter(d: Decoder, input: seq<Byte>, c: Scalar, tail: seq<Byte>)
    requires Coherent(d) && c != BACKSLASH && Pending(d) + input == Utf8(c) + tail
    ensures |tail| < |input| && Read(d, input) == Add(Emit(c), Read(Decoder(ACCEPT, 0), tail))
    decreases |input|
  {
    hide Step, Utf8, Pending, Read, Escape, Emit;
    var all := Utf8(c) + tail;
    if |input| <= |tail| {
      assert Utf8(c) == all[..|Utf8(c)|] == Pending(d)[..|Utf8(c)|];
      PendingHoldsNoCharacter(d, c);
    }
    var b := input[0];
    assert all == Pending(d) + [b] + input[1..];
    StepInside(d, b, c, all);
    ReadPending(d, input);
    var d' := Step(d, b);
    if d'.state == ACCEPT {
      assert input[1..] == all[|Utf8(c)|..] == tail;
    } else {
      ReadCharacter(d', input[1..], c, tail);
    }
  }

  lemma PendingLead(d: Decoder)
    requires Coherent(d)
    ensures Pending(d) != [] ==> Pending(d)[0] >= 0xC0
  {
  }

  lemma Fresh(tail: seq<Byte>)
    ensures Coherent(Decoder(ACCEPT, 0)) && Pending(Decoder(ACCEPT, 0)) + tail == tail
  {
  }

  lemma EscapeStart(d: Decoder, input: seq<Byte>, all: seq<Byte>)
    requires Coherent(d) && all == Pending(d) + input && all != [] && all[0] == BACKSLASH
    ensures d.state == ACCEPT && Pending(d) == [] && Read(d, input) == Escape(input[1..])
  {
    hide Read, Escape, Pending, Coherent;
    var p := Pending(d);
    assert p != [] ==> all[0] == p[0];
    PendingLead(d);
    ReadPending(d, input);
  }

  lemma {:induction false} ReadTail(d: Decoder, input: seq<Byte>, rest: seq<Byte>)
    requires Coherent(d) && (rest == [] || Truncated(rest))
    requires Pending(d) + input == TextAll([]) + rest
    ensures Read(d, input) == Expected([], rest)
    decreases |input|
  {
    hide Step, Utf8, Pending;
    assert TextAll([]) + rest == rest && MeaningAll([]) == [];
    if input == [] {
      assert Pending(d) + input == Pending(d);
    } else {
      var c: Scalar :| rest < Utf8(c);
      var b := input[0];
      assert Pending(d) + input == Pending(d) + [b] + input[1..];
      assert Pending(d) + [b] <= Utf8(c);
      StepInside(d, b, c, Utf8(c));
      var d' := Step(d, b);
      if d'.state == ACCEPT {
        TruncatedHoldsNoCharacter(rest, c);
      }
      ReadTail(d', input[1..], rest);
    }
  }

  /** Whatever is read without error was made of items. */
  lemma {:induction false} ReadSound(d: Decoder, input: seq<Byte>) returns (items: seq<Item>, rest: seq<Byte>)
    requires Coherent(d) && Read(d, input) != Bad
    ensures AllValid(items) && (rest == [] || Truncated(rest))
    ensures Pending(d) + input == TextAll(items) + rest
    decreases |input|
  {
    hide Step, Utf8, Utf16, Pending, Read, Escape, Emit, Truncated, Expected;
    if input == [] {
      items, rest := [], Pending(d);
      if rest != [] {
        PendingIsTruncated(d);
      }
    } else {
      var b, tail := input[0], input[1..];
      ReadPending(d, input);
      StepSound(d, b);
      var d' := Step(d, b);
      assert Pending(d) + input == Pending(d) + [b] + tail;
      if d'.state != ACCEPT {
        items, rest := ReadSound(d', tail);
      } else {
        var item, after := FirstItem(d, input);
        Fresh(after);
        var items';
        items', rest := ReadSound(Decoder(ACCEPT, 0), after);
        ExpectedCons(item, items', rest);
        Regroup(item.Text(), TextAll(items'), rest);
        items := [item] + items';
      }
    }
  }

  lemma FirstItem(d: Decoder, input: seq<Byte>) returns (item: Item, after: seq<Byte>)
    requires Coherent(d) && input != [] && Step(d, input[0]).state == ACCEPT && Read(d, input) != Bad
    ensures item.Valid() && |after| < |input| && Read(Decoder(ACCEPT, 0), after) != Bad
    ensures Pending(d) + input == item.Text() + after
  {
    hide Step, Utf8, Pending, Read, Escape, Emit;
    var d', tail := Step(d, input[0]), input[1..];
    ReadPending(d, input);
    StepSound(d, input[0]);
    assert Pending(d) + input == Pending(d) + [input[0]] + tail;
    if d'.codep != BACKSLASH {
      item, after := Raw(d'.codep), tail;
    } else {
      OneByte();
      item, after := EscapeItem(tail);
      assert item.Text() == [BACKSLASH] + item.Text()[1..];
    }
  }

  lemma OneByte()
    ensures Utf8(BACKSLASH) == [BACKSLASH]
  {
  }

  lemma EscapeItem(rest: seq<Byte>) returns (item: Item, after: seq<Byte>)
    requires Escape(rest) != Bad
    ensures item.Valid() && item.Text()[0] == BACKSLASH && |after| < |rest|
    ensures rest == item.Text()[1..] + after && Read(Decoder(ACCEPT, 0), after) != Bad
  {
    hide Read, Hex4, Utf8;
    if IsShort(rest[0]) {
      item, after := Short(rest[0]), rest[1..];
    } else if IsHigh(Hex4(rest, 1)) {
      item, after := PairItem(rest);
    } else {
      var h := rest[1..5];
      SliceHex(rest, 1, h);
      item, after := Hex(h), rest[5..];
      assert rest == [LETTER_U] + h + after;
    }
  }

  lemma PairItem(rest: seq<Byte>) returns (item: Item, after: seq<Byte>)
    requires Escape(rest) != Bad && !IsShort(rest[0]) && IsHigh(Hex4(rest, 1))
    ensures item.Pair? && item.Valid() && after == rest[11..]
    ensures rest == item.Text()[1..] + after && Read(Decoder(ACCEPT, 0), after) != Bad
  {
    hide Read, Hex4, Utf8;
    var h, l := rest[1..5], rest[7..11];
    SliceHex(rest, 1, h);
    SliceHex(rest, 7, l);
    item, after := Pair(h, l), rest[11..];
    hide Escape, IsHex4;
    PairAfterBackslash(h, l);
    PairSlices(rest);
  }

  lemma PairAfterBackslash(h: seq<Byte>, l: seq<Byte>)
    ensures Pair(h, l).Text()[1..] == [LETTER_U] + h + [BACKSLASH, LETTER_U] + l
  {
  }

  lemma PairSlices(rest: seq<Byte>)
    requires |rest| >= 11 && rest[0] == LETTER_U && rest[5] == BACKSLASH && rest[6] == LETTER_U
    ensures rest == [LETTER_U] + rest[1..5] + [BACKSLASH, LETTER_U] + rest[7..11] + rest[11..]
  {
  }

  /** A way to see `input` as items and, behind them, possibly an unfinished character. */
  ghost predicate Splits(input: seq<Byte>, items: seq<Item>, rest: seq<Byte>) {
    && AllValid(items)
    && (rest == [] || Truncated(rest))
    && input == TextAll(items) + rest
  }

  /**
   * The reading is good exactly when the input is a concatenation of items, cut exactly when an
   * unfinished character follows them, and its units are the UTF-16 form of what the items mean,
   * whichever way the input is split.
   */
  lemma ReadingIsGrammar(codep: Word32, input: seq<Byte>)
    ensures var r := Read(Decoder(ACCEPT, codep), input);
      && (r.Good? <==> exists items: seq<Item> :: Splits(input, items, []))
      && (r.Cut? <==> exists items: seq<Item>, rest: seq<Byte> :: rest != [] && Splits(input, items, rest))
      && (forall items: seq<Item>, rest: seq<Byte> :: Splits(input, items, rest) ==> r == Expected(items, rest))
  {
    hide Read, Pending, TextAll, MeaningAll, Truncated, Utf16All;
    var d := Decoder(ACCEPT, codep);
    var r := Read(d, input);
    assert Pending(d) + input == input;
    forall items: seq<Item>, rest: seq<Byte> | Splits(input, items, rest)
      ensures r == Expected(items, rest)
    {
      ReadComplete(d, input, items, rest);
    }
    if r != Bad {
      var items, rest := ReadSound(d, input);
      assert Splits(input, items, rest);
    }
  }

  /** The output is always well-formed UTF-16. */
  lemma ReadingIsWellFormed(codep: Word32, input: seq<Byte>)
    ensures var r := Read(Decoder(ACCEPT, codep), input); r != Bad ==> WellFormedUtf16(r.units)
  {
    hide Read, Pending, TextAll, MeaningAll, Truncated, Utf16All;
    var d := Decoder(ACCEPT, codep);
    if Read(d, input) != Bad {
      assert Pending(d) + input == input;
      var items, rest := ReadSound(d, input);
      ReadComplete(d, input, items, rest);
      assert Utf16All(MeaningAll(items)) == Read(d, input).units;
    }
  }

  // ---------------------------------------------------------------------------
  // The escapes, one by one
  // ---------------------------------------------------------------------------

  /** After a backslash, each of these bytes denotes the character beside it. */
  const SHORT_ESCAPES: map<Byte, Word16> :=
    map[0x22 := 0x22, 0x5C := 0x5C, 0x2F := 0x2F, 0x62 := 8, 0x66 := 12, 0x6E := 10, 0x72 := 13, 0x74 := 9]

  lemma AfterBackslashByte(codep: Word32, tail: seq<Byte>)
    ensures Read(Decoder(ACCEPT, codep), [0x5C] + tail) == Escape(tail)
  {
    assert Step(Decoder(ACCEPT, codep), 0x5C) == Decoder(ACCEPT, 0x5C);
    hide Step, Escape;
    assert ([0x5C] + tail)[1..] == tail;
  }

  /** `\"`, `\\`, `\/`, `\b`, `\f`, `\n`, `\r` and `\t` are read as these characters. */
  lemma ShortEscapes(codep: Word32, e: Byte)
    requires e in SHORT_ESCAPES
    ensures Read(Decoder(ACCEPT, codep), [0x5C, e]) == Good([SHORT_ESCAPES[e]])
  {
    AfterBackslashByte(codep, [e]);
    assert [0x5C] + [e] == [0x5C, e];
    assert [e][1..] == [];
  }

  /** Any other byte but `u` there is an error, whatever follows. */
  lemma OtherEscapes(codep: Word32, e: Byte, tail: seq<Byte>)
    requires e !in SHORT_ESCAPES && e != 0x75
    ensures Read(Decoder(ACCEPT, codep), [0x5C, e] + tail) == Bad
  {
    AfterBackslashByte(codep, [e] + tail);
    assert [0x5C] + ([e] + tail) == [0x5C, e] + tail;
  }

  const LOWER := "0123456789abcdef"
  const UPPER := "0123456789ABCDEF"

  /** A hexadecimal digit of either case has the value of its position. */
  lemma HexDigits(i: nat)
    requires i < 16
    ensures DecodeHex(LOWER[i] as nat) == i == DecodeHex(UPPER[i] as nat)
  {
  }

  /** And nothing else has one. */
  lemma NotHexDigit(b: Byte)
    ensures DecodeHex(b) == 0xFFFF || b as char in LOWER || b as char in UPPER
  {
    if DecodeHex(b) != 0xFFFF {
      assert b as char == LOWER[DecodeHex(b)] || b as char == UPPER[DecodeHex(b)];
    }
  }

  /** `\u` and four digits that are no surrogate are read as the number in base 16. */
  lemma HexEscape(codep: Word32, h: seq<Byte>, p: nat, q: nat, r: nat, s: nat)
    requires |h| == 4 && p < 16 && q < 16 && r < 16 && s < 16
    requires h[0] as char in {LOWER[p], UPPER[p]} && h[1] as char in {LOWER[q], UPPER[q]}
    requires h[2] as char in {LOWER[r], UPPER[r]} && h[3] as char in {LOWER[s], UPPER[s]}
    requires var v := 4096 * p + 256 * q + 16 * r + s; v < 0xD800 || v > 0xDFFF
    ensures Read(Decoder(ACCEPT, codep), [0x5C, 0x75] + h) == Good([4096 * p + 256 * q + 16 * r + s])
  {
    HexDigits(p);
    HexDigits(q);
    HexDigits(r);
    HexDigits(s);
    hide DecodeHex, Step;
    AfterBackslashByte(codep, [0x75] + h);
    assert [0x5C] + ([0x75] + h) == [0x5C, 0x75] + h;
    HexText(h, []);
    assert [0x75] + h + [] == [0x75] + h;
    assert Item.Hex(h).Text()[1..] == [0x75] + h;
  }

  // ---------------------------------------------------------------------------
  // What section 7 of RFC 8259 keeps out
  // ---------------------------------------------------------------------------

  const QUOTE: Byte := 0x22

  /** Quotation marks and control characters must be escaped. */
  predicate Allowed(item: Item) {
    item.Raw? ==> item.c >= 0x20 && item.c != QUOTE
  }

  /** The body of a string of the RFC, all of whose escapes denote characters. */
  ghost predicate RfcString(input: seq<Byte>) {
    exists items: seq<Item> :: Splits(input, items, []) && forall i | 0 <= i < |items| :: Allowed(items[i])
  }

  /** A scan of the bytes alone: no control character, and no quotation mark but behind an escaping backslash. */
  predicate Scan(input: seq<Byte>) {
    if input == [] then true
    else if input[0] != BACKSLASH then input[0] >= 0x20 && input[0] != QUOTE && Scan(input[1..])
    else |input| == 1 || (input[1] >= 0x20 && Scan(input[2..]))
  }

  /** Bytes that the scan passes over. */
  lemma {:induction false} ScanPlain(plain: seq<Byte>, rest: seq<Byte>)
    requires forall i | 0 <= i < |plain| :: plain[i] >= 0x20 && plain[i] != QUOTE && plain[i] != BACKSLASH
    ensures Scan(plain + rest) == Scan(rest)
    decreases |plain|
  {
    if plain == [] {
      assert plain + rest == rest;
    } else {
      assert (plain + rest)[1..] == plain[1..] + rest;
      ScanPlain(plain[1..], rest);
    }
  }

  lemma ScanEscape(e: Byte, rest: seq<Byte>)
    requires e >= 0x20
    ensures Scan([BACKSLASH, e] + rest) == Scan(rest)
  {
    assert ([BACKSLASH, e] + rest)[2..] == rest;
  }

  lemma ScanHex(h: seq<Byte>, rest: seq<Byte>)
    requires |h| == 4 && IsHex4(h, 0)
    ensures Scan([BACKSLASH, LETTER_U] + h + rest) == Scan(rest)
  {
    assert [BACKSLASH, LETTER_U] + h + rest == [BACKSLASH, LETTER_U] + (h + rest);
    ScanEscape(LETTER_U, h + rest);
    ScanPlain(h, rest);
  }

  lemma ScanRaw(c: Scalar, rest: seq<Byte>)
    requires c != BACKSLASH
    ensures Scan(Utf8(c) + rest) <==> c >= 0x20 && c != QUOTE && Scan(rest)
  {
    if c >= 0x20 && c != QUOTE {
      RawBytes(c);
      hide Utf8;
      ScanPlain(Utf8(c), rest);
    } else {
      assert Utf8(c) == [c];
    }
  }

  lemma RawBytes(c: Scalar)
    requires c >= 0x20 && c != QUOTE && c != BACKSLASH
    ensures forall i | 0 <= i < |Utf8(c)| ::
      Utf8(c)[i] >= 0x20 && Utf8(c)[i] != QUOTE && Utf8(c)[i] != BACKSLASH
  {
  }

  lemma ScanItem(item: Item, rest: seq<Byte>)
    requires item.Valid()
    ensures Scan(item.Text() + rest) <==> Allowed(item) && Scan(rest)
  {
    hide Scan, Utf8, IsHex4, Hex4;
    match item
    case Raw(c) => ScanRaw(c, rest);
    case Short(e) => ScanEscape(e, rest);
    case Hex(h) => ScanHex(h, rest);
    case Pair(h, l) =>
      assert item.Text() + rest == [BACKSLASH, LETTER_U] + h + ([BACKSLASH, LETTER_U] + l + rest);
      ScanHex(h, [BACKSLASH, LETTER_U] + l + rest);
      ScanHex(l, rest);
  }

  lemma {:induction false} ScanItems(items: seq<Item>)
    requires AllValid(items)
    ensures Scan(TextAll(items)) <==> forall i | 0 <= i < |items| :: Allowed(items[i])
    decreases |items|
  {
    if items == [] {
    } else {
      ScanItem(items[0], TextAll(items[1..]));
      ScanItems(items[1..]);
      hide Scan, Allowed;
      assert forall i | 0 < i < |items| :: items[i] == items[1..][i - 1];
    }
  }

  /** Input is a string of the RFC exactly when it is read as good and passes the scan. */
  lemma GoodIffRfcString(codep: Word32, input: seq<Byte>)
    ensures Read(Decoder(ACCEPT, codep), input).Good? && Scan(input) <==> RfcString(input)
  {
    hide Read, Scan, TextAll, Allowed;
    ReadingIsGrammar(codep, input);
    forall items: seq<Item> | Splits(input, items, [])
      ensures Scan(input) <==> forall i | 0 <= i < |items| :: Allowed(items[i])
    {
      assert TextAll(items) + [] == TextAll(items);
      ScanItems(items);
    }
  }

  /** A quotation mark or a line feed on its own is read as good all the same. */
  lemma BareByteIsGood(codep: Word32, b: Byte)
    requires b == QUOTE || b < 0x20
    ensures Read(Decoder(ACCEPT, codep), [b]).Good? && !RfcString([b])
  {
    hide Read;
    assert Utf8(b) == [b];
    var items := [Raw(b)];
    assert TextAll(items[1..]) == [];
    assert Splits([b], items, []);
    ReadingIsGrammar(codep, [b]);
    GoodIffRfcString(codep, [b]);
  }

  // ---------------------------------------------------------------------------
  // The label machine
  // ---------------------------------------------------------------------------

  datatype Label = Standard | Backslash | Unicode1 | Unicode2 | Unicode3 | Unicode4 | Surrogate1 | Surrogate2

  /** `done` written, and characters to be read from offset `s` on. */
  ghost predicate Reads(src: seq<Byte>, done: seq<Word16>, s: nat, d: Decoder) {
    && s <= |src| && Coherent(d) && |done| + |Pending(d)| <= s
    && Read(Decoder(ACCEPT, 0), src) == Add(done, Read(d, src[s..]))
  }

  /** `done` written, and a backslash read just before offset `e`. */
  ghost predicate Escapes(src: seq<Byte>, done: seq<Word16>, e: nat) {
    && |done| < e <= |src|
    && Read(Decoder(ACCEPT, 0), src) == Add(done, Escape(src[e..]))
  }

  lemma ReadsStart(src: seq<Byte>, codep: Word32)
    ensures Reads(src, [], 0, Decoder(ACCEPT, codep))
  {
    assert src[0..] == src;
    OldState(Decoder(ACCEPT, codep), src);
    hide Read;
    var r := Read(Decoder(ACCEPT, 0), src);
    assert r != Bad ==> [] + r.units == r.units;
  }

  lemma AddAdd(a: seq<Word16>, b: seq<Word16>, r: Reading)
    ensures Add(a, Add(b, r)) == Add(a + b, r)
    ensures a + [] == a
  {
    if r != Bad {
      Regroup(a, b, r.units);
    }
  }

  /** One turn of the `standard` loop. */
  lemma ReadsStep(src: seq<Byte>, done: seq<Word16>, s: nat, d: Decoder)
    requires Reads(src, done, s, d) && s < |src|
    ensures var d' := Step(d, src[s]);
      if d'.state == REJECT then Read(Decoder(ACCEPT, 0), src) == Bad
      else if d'.state != ACCEPT then Reads(src, done, s + 1, d')
      else if d'.codep == BACKSLASH then Escapes(src, done, s + 1)
      else Reads(src, done + Emit(d'.codep), s + 1, d') && |done| + |Emit(d'.codep)| <= s + 1
  {
    hide Read, Step, Escape, Emit, Add, Pending, Utf8;
    StepSound(d, src[s]);
    if Step(d, src[s]).state == ACCEPT {
      EmitRoom(Step(d, src[s]).codep);
    }
    var input := src[s..];
    assert input[0] == src[s] && input[1..] == src[s + 1..];
    ReadPending(d, input);
    var d' := Step(d, src[s]);
    if d'.state == REJECT {
      AddBad(done);
    } else if d'.state == ACCEPT && d'.codep != BACKSLASH {
      OldState(d', src[s + 1..]);
      AddAdd(done, Emit(d'.codep), Read(d', src[s + 1..]));
    }
  }

  lemma EmitRoom(c: Scalar)
    ensures |Emit(c)| <= |Utf8(c)|
  {
  }

  lemma AddBad(done: seq<Word16>)
    ensures Add(done, Bad) == Bad
  {
  }

  lemma ReadsEnd(src: seq<Byte>, done: seq<Word16>, d: Decoder)
    requires Reads(src, done, |src|, d)
    ensures Read(Decoder(ACCEPT, 0), src) == if d.state == ACCEPT then Good(done) else Cut(done)
  {
    assert src[|src|..] == [];
    AddAdd(done, [], Bad);
  }

  /** What a backslash at offset `e - 1` leads to. */
  datatype Escaped = Failed | Goes(units: seq<Word16>, next: nat)

  /** The escape at offset `e`, in terms of the bytes there. */
  function EscapeAt(src: seq<Byte>, e: nat): (r: Escaped)
    requires e <= |src|
    ensures r.Goes? ==> e + |r.units| <= r.next <= |src|
  {
    if e == |src| then Failed
    else if IsShort(src[e]) then Goes([ShortMeaning(src[e])], e + 1)
    else if src[e] != LETTER_U || !IsHex4(src, e + 1) || IsLow(Hex4(src, e + 1)) then Failed
    else if !IsHigh(Hex4(src, e + 1)) then Goes([Hex4(src, e + 1)], e + 5)
    else if |src| < e + 7 || src[e + 5] != BACKSLASH || src[e + 6] != LETTER_U then Failed
    else if !IsHex4(src, e + 7) || !IsLow(Hex4(src, e + 7)) then Failed
    else Goes([Hex4(src, e + 1), Hex4(src, e + 7)], e + 11)
  }

  lemma EscapeIsAt(src: seq<Byte>, e: nat)
    requires e <= |src|
    ensures Escape(src[e..]) ==
      match EscapeAt(src, e)
      case Failed => Bad
      case Goes(units, next) => Add(units, Read(Decoder(ACCEPT, 0), src[next..]))
  {
    hide Read, Hex4, Add, IsShort;
    var rest := src[e..];
    ShiftHex(src, e, 1);
    ShiftHex(src, e, 7);
    assert forall n | 0 <= n < |rest| :: rest[n] == src[e + n];
    if |rest| >= 1 { assert rest[1..] == src[e + 1..]; }
    if |rest| >= 5 { assert rest[5..] == src[e + 5..]; }
    if |rest| >= 11 { assert rest[11..] == src[e + 11..]; }
  }

  lemma EscapesStep(src: seq<Byte>, done: seq<Word16>, e: nat, codep: Word32)
    requires Escapes(src, done, e)
    ensures match EscapeAt(src, e)
      case Failed => Read(Decoder(ACCEPT, 0), src) == Bad
      case Goes(units, next) => Reads(src, done + units, next, Decoder(ACCEPT, codep)) && |done| + |units| < next
  {
    hide Read, Escape, EscapeAt, Add;
    EscapeIsAt(src, e);
    match EscapeAt(src, e)
    case Failed =>
      AddBad(done);
    case Goes(units, next) =>
      OldState(Decoder(ACCEPT, codep), src[next..]);
      AddAdd(done, units, Read(Decoder(ACCEPT, 0), src[next..]));
  }

  lemma ShiftHex(src: seq<Byte>, e: nat, i: nat)
    requires e <= |src|
    ensures IsHex4(src[e..], i) == IsHex4(src, e + i)
    ensures IsHex4(src, e + i) ==> Hex4(src[e..], i) == Hex4(src, e + i)
  {
  }

  /** The value of the first `n` of four hexadecimal digits at offset `i`. */
  function Digits(src: seq<Byte>, i: nat, n: nat): nat
    requires n <= 4 && i + n <= |src|
  {
    (if n >= 1 then 0x1000 * DecodeHex(src[i]) else 0)
    + (if n >= 2 then 0x100 * DecodeHex(src[i + 1]) else 0)
    + (if n >= 3 then 0x10 * DecodeHex(src[i + 2]) else 0)
    + (if n >= 4 then DecodeHex(src[i + 3]) else 0)
  }

  predicate AreHex(src: seq<Byte>, i: nat, n: nat)
    requires i + n <= |src|
  {
    forall j | i <= j < i + n :: DecodeHex(src[j]) < 16
  }

  /** The number of digits read before each of the four digit labels. */
  function Rank(pc: Label): nat {
    match pc
    case Unicode2 => 1
    case Unicode3 => 2
    case Unicode4 => 3
    case _ => 0
  }

  /**
   * What is known on arrival at the labels after a backslash, whose escape starts at offset `e`:
   * `done` was written before it, and when `surrogate` is set, the high surrogate as well.
   */
  ghost predicate Arrived(src: seq<Byte>, pc: Label, s: nat, codepoint: Word32, surrogate: nat,
                          unidata: Word16, units: seq<Word16>, done: seq<Word16>, e: nat)
  {
    && 0 < s <= |src| && surrogate <= 1 && codepoint == src[s - 1]
    && Escapes(src, done, e) && e < |src|
    && (surrogate == 0 ==> units == done)
    && (surrogate == 1 ==>
          && IsHex4(src, e + 1) && IsHigh(Hex4(src, e + 1))
          && src[e] == LETTER_U && units == done + [Hex4(src, e + 1)])
    && match pc
       case Standard => false
       case Backslash => surrogate == 0 && s == e + 1
       case Surrogate1 => surrogate == 1 && s == e + 6
       case Surrogate2 => surrogate == 1 && s == e + 7 && src[e + 5] == BACKSLASH
       case _ =>
         var h := e + 6 * surrogate;
         && s == h + 2 + Rank(pc) && src[h] == LETTER_U
         && (surrogate == 1 ==> src[e + 5] == BACKSLASH)
         && AreHex(src, h + 1, Rank(pc))
         && (unidata == Digits(src, h + 1, Rank(pc)) || Rank(pc) == 0)
  }

  /** `unidata |= temp_hex << k` joins one more digit. */
  lemma JoinDigit(k: nat, p: nat, high: nat, digit: nat)
    requires (k == 8 && p == 0x100) || (k == 4 && p == 0x10) || (k == 0 && p == 1)
    requires digit < 16
    ensures Shl(digit, k, 16) == p * digit
    ensures Or(16 * p * high, p * digit) == 16 * p * high + p * digit
  {
    hide Or, Pow2;
    Pow2Small();
    OrDisjoint(k + 4, 16 * p, p * digit, high);
  }

  lemma FirstDigit(digit: nat)
    requires digit < 16
    ensures Shl(digit, 12, 16) == 0x1000 * digit
  {
    hide Pow2;
    Pow2Small();
  }

  /** The three ways the machine adds a digit to `unidata`. */
  lemma JoinedDigits(a: nat, b: nat, c: nat, digit: nat)
    requires a < 16 && b < 16 && c < 16 && digit < 16
    ensures Or(0x1000 * a, Shl(digit, 8, 16)) == 0x1000 * a + 0x100 * digit < 0x1_0000
    ensures Or(0x1000 * a + 0x100 * b, Shl(digit, 4, 16)) == 0x1000 * a + 0x100 * b + 0x10 * digit < 0x1_0000
    ensures Or(0x1000 * a + 0x100 * b + 0x10 * c, digit) == 0x1000 * a + 0x100 * b + 0x10 * c + digit < 0x1_0000
  {
    hide Or, Shl, Pow2;
    JoinDigit(8, 0x100, a, digit);
    JoinDigit(4, 0x10, 16 * a + b, digit);
    JoinDigit(0, 1, 256 * a + 16 * b + c, digit);
  }

  lemma NextUnidata(src: seq<Byte>, pc: Label, s: nat, codepoint: Word32, surrogate: nat,
                    unidata: Word16, units: seq<Word16>, done: seq<Word16>, e: nat)
    requires Arrived(src, pc, s, codepoint, surrogate, unidata, units, done, e)
    requires DecodeHex(codepoint) < 16
    ensures var t := DecodeHex(codepoint);
      && Shl(t, 12, 16) == 0x1000 * t < 0x1_0000
      && (pc == Unicode2 ==> Or(unidata, Shl(t, 8, 16)) == unidata + 0x100 * t < 0x1_0000)
      && (pc == Unicode3 ==> Or(unidata, Shl(t, 4, 16)) == unidata + 0x10 * t < 0x1_0000)
      && (pc == Unicode4 ==> Or(unidata, t) == unidata + t < 0x1_0000)
  {
    hide Or, Shl, DecodeHex, Escapes, Hex4, IsHex4;
    var t, h := DecodeHex(codepoint), e + 6 * surrogate;
    FirstDigit(t);
    if pc == Unicode2 || pc == Unicode3 || pc == Unicode4 {
      var n := Rank(pc);
      assert AreHex(src, h + 1, n) && unidata == Digits(src, h + 1, n);
      hide Arrived;
      JoinedDigits(DecodeHex(src[h + 1]), if n > 1 then DecodeHex(src[h + 2]) else 0,
                   if n > 2 then DecodeHex(src[h + 3]) else 0, t);
    }
  }

  lemma HexOrNot(c: nat)
    ensures DecodeHex(c) < 16 || DecodeHex(c) == 0xFFFF
  {
  }

  /** The `standard` label up to the next backslash, the end of the input, or an error. */
  method StandardLoop(dest: array<Word16>, d0: nat, src: seq<Byte>, s0: nat, state0: nat, codepoint0: Word32,
                      ghost units0: seq<Word16>)
    returns (d: nat, s: nat, state: nat, codepoint: Word32, pc: Label, ghost units: seq<Word16>)
    requires |units0| <= d0 && d0 - |units0| + |src| <= dest.Length
    requires Reads(src, units0, s0, Decoder(state0, codepoint0))
    requires forall i | 0 <= i < |units0| :: dest[d0 - |units0| + i] == units0[i]
    modifies dest
    ensures d - |units| == d0 - |units0| && |units| <= s <= |src|
    ensures forall i | 0 <= i < |units| :: dest[d - |units| + i] == units[i]
    ensures forall i | 0 <= i < d - |units| || d - |units| + |src| <= i < dest.Length :: dest[i] == old(dest[i])
    ensures pc == Standard || pc == Backslash
    ensures pc == Backslash ==> s0 < s && state == ACCEPT && Escapes(src, units, s)
    ensures pc == Standard && state == REJECT ==> Read(Decoder(ACCEPT, 0), src) == Bad
    ensures pc == Standard && state != REJECT ==> Reads(src, units, s, Decoder(state, codepoint)) && s == |src|
  {
    hide Read, Step, Emit, Reads, Escapes, Pending, Escape;
    d, s, state, codepoint, pc, units := d0, s0, state0, codepoint0, Standard, units0;
    ghost var base := d0 - |units0|;
    ReadsRoom(src, units, s, Decoder(state, codepoint));
    while s < |src|
      invariant |units| <= s <= |src| && d == base + |units| && s0 <= s
      invariant Reads(src, units, s, Decoder(state, codepoint))
      invariant forall i | 0 <= i < |units| :: dest[base + i] == units[i]
      invariant forall i | 0 <= i < base || base + |src| <= i < dest.Length :: dest[i] == old(dest[i])
    {
      ReadsStep(src, units, s, Decoder(state, codepoint));
      ReadsRoom(src, units, s, Decoder(state, codepoint));
      var byte := src[s];
      s := s + 1;
      state, codepoint := Decode(state, codepoint, byte);
      if state != ACCEPT {
        if state == REJECT {
          return;
        }
        continue;
      }
      if codepoint == 0x5C {
        pc := Backslash;
        return;
      }
      d := PutCodepoint(dest, d, codepoint);
      units := units + Emit(codepoint);
    }
    ReadsRoom(src, units, s, Decoder(state, codepoint));
  }

  lemma ReadsRoom(src: seq<Byte>, units: seq<Word16>, s: nat, d: Decoder)
    requires Reads(src, units, s, d)
    ensures |units| <= s <= |src| && IsState(d.state) && d.state != REJECT
  {
    hide Read;
  }

  /** A bad digit, or no byte where one is due, makes the whole reading fail. */
  lemma BadDigit(src: seq<Byte>, pc: Label, s: nat, codepoint: Word32, surrogate: nat,
                 unidata: Word16, units: seq<Word16>, done: seq<Word16>, e: nat)
    requires Arrived(src, pc, s, codepoint, surrogate, unidata, units, done, e)
    requires pc.Unicode1? || pc.Unicode2? || pc.Unicode3? || pc.Unicode4?
    requires DecodeHex(codepoint) == 0xFFFF || (s == |src| && pc != Unicode4)
    ensures Read(Decoder(ACCEPT, 0), src) == Bad
  {
    hide Escapes, Read, Hex4;
    EscapesStep(src, done, e, 0);
  }

  /** A good digit followed by one more byte leads to the next digit label. */
  lemma GoodDigit(src: seq<Byte>, pc: Label, s: nat, codepoint: Word32, surrogate: nat,
                  unidata: Word16, unidata': Word16, units: seq<Word16>, done: seq<Word16>, e: nat)
    requires Arrived(src, pc, s, codepoint, surrogate, unidata, units, done, e) && s < |src|
    requires pc.Unicode1? || pc.Unicode2? || pc.Unicode3?
    requires DecodeHex(codepoint) < 16
    requires unidata' == (if pc.Unicode1? then 0 else unidata)
      + (if pc.Unicode1? then 0x1000 else if pc.Unicode2? then 0x100 else 0x10) * DecodeHex(codepoint)
    ensures Arrived(src, if pc.Unicode1? then Unicode2 else if pc.Unicode2? then Unicode3 else Unicode4,
                    s + 1, src[s], surrogate, unidata', units, done, e)
  {
    hide Escapes, Hex4, DecodeHex;
  }

  /** The last digit decides between going on, expecting a low surrogate, and failing. */
  lemma LastDigit(src: seq<Byte>, s: nat, codepoint: Word32, surrogate: nat,
                  unidata: Word16, units: seq<Word16>, done: seq<Word16>, e: nat)
    requires Arrived(src, Unicode4, s, codepoint, surrogate, unidata, units, done, e)
    requires DecodeHex(codepoint) < 16
    ensures var v := unidata + DecodeHex(codepoint); var bad := Read(Decoder(ACCEPT, 0), src) == Bad;
      && v < 0x1_0000 && |units| < s
      && (surrogate == 1 ==> if IsLow(v) then Reads(src, units + [v], s, Decoder(ACCEPT, codepoint)) else bad)
      && (surrogate == 0 ==>
            && (IsLow(v) ==> bad)
            && (!IsLow(v) && !IsHigh(v) ==> Reads(src, units + [v], s, Decoder(ACCEPT, codepoint)))
            && (IsHigh(v) && s == |src| ==> bad)
            && (IsHigh(v) && s < |src| ==> Arrived(src, Surrogate1, s + 1, src[s], 1, v, units + [v], done, e)))
  {
    hide Reads, Read, DecodeHex, Escape;
    EscapesStep(src, done, e, codepoint);
    var h := e + 6 * surrogate;
    var v := unidata + DecodeHex(codepoint);
    assert IsHex4(src, h + 1) && Hex4(src, h + 1) == v;
    assert surrogate == 1 ==> units + [v] == done + [Hex4(src, e + 1), v];
  }

  /** The two labels between the halves of a pair. */
  lemma BetweenHalves(src: seq<Byte>, pc: Label, s: nat, codepoint: Word32, surrogate: nat,
                      unidata: Word16, units: seq<Word16>, done: seq<Word16>, e: nat)
    requires Arrived(src, pc, s, codepoint, surrogate, unidata, units, done, e)
    requires pc == Surrogate1 || pc == Surrogate2
    ensures var wanted := if pc == Surrogate1 then 0x5C else 0x75;
      var next := if pc == Surrogate1 then Surrogate2 else Unicode1;
      if codepoint == wanted && s < |src| then Arrived(src, next, s + 1, src[s], surrogate, unidata, units, done, e)
      else Read(Decoder(ACCEPT, 0), src) == Bad
  {
    hide Read, Escapes, Hex4;
    EscapesStep(src, done, e, 0);
  }

  lemma ArriveBackslash(src: seq<Byte>, e: nat, unidata: Word16, units: seq<Word16>)
    requires Escapes(src, units, e) && e < |src|
    ensures Arrived(src, Backslash, e + 1, src[e], 0, unidata, units, units, e)
  {
    hide Escapes;
  }

  /** The byte after a backslash. */
  lemma AfterBackslash(src: seq<Byte>, s: nat, codepoint: Word32, surrogate: nat,
                       unidata: Word16, units: seq<Word16>, done: seq<Word16>, e: nat)
    requires Arrived(src, Backslash, s, codepoint, surrogate, unidata, units, done, e)
    ensures codepoint < 0x100 && |units| < s && surrogate == 0
    ensures if IsShort(codepoint) then Reads(src, units + [ShortMeaning(codepoint)], s, Decoder(ACCEPT, codepoint))
      else if codepoint == 0x75 && s < |src| then
        Arrived(src, Unicode1, s + 1, src[s], 0, unidata, units, done, e)
      else Read(Decoder(ACCEPT, 0), src) == Bad
  {
    hide Read, Reads, Hex4, Escape;
    EscapesStep(src, done, e, codepoint);
  }

  /**
   * `_js_decode_string`: 0 when the input is read to its end, 1 when it ends inside a character,
   * -1 on an error. Only in the last case `*destoff` stays as it was.
   */
  method DecodeString(dest: array<Word16>, destoff: nat, src: seq<Byte>, codepoint0: Word32, unidata0: Word16)
    returns (ret: int, destoff': nat)
    requires destoff + |src| <= dest.Length
    modifies dest
    ensures match Read(Decoder(ACCEPT, codepoint0), src)
      case Bad => ret == -1 && destoff' == destoff
      case Cut(units) =>
        ret == 1 && destoff' == destoff + |units| <= destoff + |src| && dest[destoff..destoff'] == units
      case Good(units) =>
        ret == 0 && destoff' == destoff + |units| <= destoff + |src| && dest[destoff..destoff'] == units
    ensures forall i | 0 <= i < destoff || destoff + |src| <= i < dest.Length :: dest[i] == old(dest[i])
  {
    hide Read, Reads, Escapes, Escape, DecodeHex, Hex4, Step, Emit, Arrived, Or, Shl;
    destoff' := destoff;
    var d, s, state, surrogate: nat := destoff, 0, ACCEPT, 0;
    var codepoint: Word32, unidata: Word16 := codepoint0, unidata0;
    var pc := Standard;
    ghost var units: seq<Word16>, done: seq<Word16>, e: nat := [], [], 0;
    OldState(Decoder(ACCEPT, codepoint0), src);
    ReadsStart(src, codepoint0);
    while true
      invariant d == destoff + |units| && |units| <= s <= |src|
      invariant forall i | 0 <= i < |units| :: dest[destoff + i] == units[i]
      invariant forall i | 0 <= i < destoff || destoff + |src| <= i < dest.Length :: dest[i] == old(dest[i])
      invariant surrogate <= 1
      invariant pc == Standard ==> surrogate == 0 && Reads(src, units, s, Decoder(state, codepoint))
      invariant pc != Standard ==> state == ACCEPT && Arrived(src, pc, s, codepoint, surrogate, unidata, units, done, e)
      decreases |src| - s, if pc == Standard then 0 else 1
    {
      if pc == Standard {
        d, s, state, codepoint, pc, units := StandardLoop(dest, d, src, s, state, codepoint, units);
        if pc == Standard {
          if state == REJECT {
            return -1, destoff;
          }
          ReadsEnd(src, units, Decoder(state, codepoint));
          assert dest[destoff..d] == units;
          return if state != ACCEPT then 1 else 0, d;
        }
        done, e := units, s;
        EscapesStep(src, done, e, codepoint);
        if s >= |src| {
          return -1, destoff;
        }
        ArriveBackslash(src, e, unidata, units);
        codepoint := src[s];
        s := s + 1;
      } else if pc == Backslash {
        AfterBackslash(src, s, codepoint, surrogate, unidata, units, done, e);
        if IsShort(codepoint) {
          dest[d] := ShortMeaning(codepoint);
          d := d + 1;
          units := units + [ShortMeaning(codepoint)];
          pc := Standard;
        } else if codepoint == 0x75 {
          if s >= |src| {
            return -1, destoff;
          }
          codepoint := src[s];
          s := s + 1;
          pc := Unicode1;
        } else {
          return -1, destoff;
        }
      } else if pc == Unicode1 || pc == Unicode2 || pc == Unicode3 {
        var tempHex := DecodeHex(codepoint);
        HexOrNot(codepoint);
        if tempHex == 0xFFFF {
          BadDigit(src, pc, s, codepoint, surrogate, unidata, units, done, e);
          return -1, destoff;
        }
        NextUnidata(src, pc, s, codepoint, surrogate, unidata, units, done, e);
        ghost var before := unidata;
        if pc == Unicode1 {
          unidata := Shl(tempHex, 12, 16);
        } else if pc == Unicode2 {
          unidata := Or(unidata, Shl(tempHex, 8, 16));
        } else {
          unidata := Or(unidata, Shl(tempHex, 4, 16));
        }
        if s >= |src| {
          BadDigit(src, pc, s, codepoint, surrogate, before, units, done, e);
          return -1, destoff;
        }
        GoodDigit(src, pc, s, codepoint, surrogate, before, unidata, units, done, e);
        codepoint := src[s];
        s := s + 1;
        pc := if pc == Unicode1 then Unicode2 else if pc == Unicode2 then Unicode3 else Unicode4;
      } else if pc == Unicode4 {
        var tempHex := DecodeHex(codepoint);
        if tempHex == 0xFFFF {
          BadDigit(src, pc, s, codepoint, surrogate, unidata, units, done, e);
          return -1, destoff;
        }
        HexOrNot(codepoint);
        NextUnidata(src, pc, s, codepoint, surrogate, unidata, units, done, e);
        LastDigit(src, s, codepoint, surrogate, unidata, units, done, e);
        unidata := Or(unidata, tempHex);
        dest[d] := unidata;
        d := d + 1;
        units := units + [unidata];
        pc := Standard;
        if surrogate == 1 {
          if unidata < 0xDC00 || unidata > 0xDFFF {
            return -1, destoff;
          }
          surrogate := 0;
        } else if 0xD800 <= unidata <= 0xDBFF {
          surrogate := 1;
          if s >= |src| {
            return -1, destoff;
          }
          codepoint := src[s];
          s := s + 1;
          pc := Surrogate1;
        } else if 0xDC00 <= unidata <= 0xDFFF {
          return -1, destoff;
        }
      } else {
        BetweenHalves(src, pc, s, codepoint, surrogate, unidata, units, done, e);
        if codepoint != (if pc == Surrogate1 then 0x5C else 0x75) || s >= |src| {
          return -1, destoff;
        }
        codepoint := src[s];
        s := s + 1;
        pc := if pc == Surrogate1 then Surrogate2 else Unicode1;
      }
    }
  }
}
