/**
 * The restartable UTF-8 to UTF-16 decoder and the Latin-1 decoder of
 * asterius/libc/text_cbits.c.
 */
module TextDecode {
  import opened Bits
  import opened Sequences
  import opened Utf8Dfa
  import opened Unicode

  /**
   * What one decoder call delivers: the units written, the offset `last` stored through
   * `src` (just past the last complete character), the offset `stop` where reading ended,
   * and the saved state and code point.
   */
  datatype Outcome = Outcome(units: seq<Word16>, last: nat, stop: nat, final: Decoder)

  function Emit(c: Word32): seq<Word16> {
    if c <= 0xFFFF then [c]
    else [(0xD7C0 + c / 0x400) % 0x1_0000, 0xDC00 + c % 0x400]
  }

  /** The decoder read one byte at a time, with the automaton's transition function. */
  function Run(d: Decoder, input: seq<Byte>): (r: Outcome)
    requires IsState(d.state)
    ensures r.last <= r.stop <= |input|
    ensures IsState(r.final.state)
    ensures r.units == [] <==> r.last == 0
    decreases input
  {
    if input == [] then Outcome([], 0, 0, d)
    else
      var d' := Step(d, input[0]);
      if d'.state == REJECT then Outcome([], 0, 1, d')
      else
        var r := Run(d', input[1..]);
        if d'.state == ACCEPT then Outcome(Emit(d'.codep) + r.units, 1 + r.last, 1 + r.stop, r.final)
        else Outcome(r.units, if r.last == 0 then 0 else 1 + r.last, 1 + r.stop, r.final)
  }

  /** The scalar values completed while running over `input`. */
  function Scalars(d: Decoder, input: seq<Byte>): seq<Scalar>
    requires Coherent(d)
    decreases input
  {
    hide Step, Utf8, Pending;
    if input == [] then []
    else
      var d' := Step(d, input[0]);
      StepSound(d, input[0]);
      if d'.state == REJECT then []
      else if d'.state == ACCEPT then [d'.codep] + Scalars(d', input[1..])
      else Scalars(d', input[1..])
  }

  // ---------------------------------------------------------------------------
  // What the decoder means
  // ---------------------------------------------------------------------------

  lemma EmitIsUtf16(c: Scalar)
    ensures Emit(c) == Utf16(c)
  {
  }

  lemma RejectIsMalformed(d: Decoder, b: Byte, tail: seq<Byte>)
    requires Coherent(d) && Step(d, b).state == REJECT
    ensures Malformed(Pending(d) + [b] + tail)
  {
    var bad := Pending(d) + [b];
    forall c: Scalar
      ensures !(bad + tail <= Utf8(c)) && !(Utf8(c) <= bad + tail)
    {
      if bad <= Utf8(c) {
        StepComplete(d, b, c);
      }
      if |Utf8(c)| < |bad| && Utf8(c) <= bad + tail {
        assert Utf8(c) <= Pending(d);
        PendingHoldsNoCharacter(d, c);
      }
    }
  }

  lemma PendingHoldsNoCharacter(d: Decoder, c: Scalar)
    requires Coherent(d)
    ensures !(Utf8(c) <= Pending(d))
  {
    if Utf8(c) <= Pending(d) {
      PendingIsTruncated(d);
      var c': Scalar :| Pending(d) < Utf8(c');
      PrefixFree(c, c');
    }
  }

  /** The number of bytes of `Pending(d) + input` that make up complete characters. */
  function Complete(d: Decoder, input: seq<Byte>): (n: nat)
    requires Coherent(d)
    ensures n <= |Pending(d)| + |input|
  {
    var last := Run(d, input).last;
    if last == 0 then 0 else |Pending(d)| + last
  }

  /**
   * The run splits the bytes it has to account for, pending ones included, into encoded
   * scalars and a rest that its final state describes.
   */
  ghost predicate Explained(d: Decoder, input: seq<Byte>)
    requires Coherent(d)
  {
    var r, all, n := Run(d, input), Pending(d) + input, Complete(d, input);
    && r.units == Utf16All(Scalars(d, input))
    && all[..n] == Utf8All(Scalars(d, input))
    && (r.final.state == REJECT ==> Malformed(all[n..]))
    && (r.final.state != REJECT ==> Coherent(r.final) && all[n..] == Pending(r.final) && r.stop == |input|)
  }

  lemma UnfoldAccept(d: Decoder, input: seq<Byte>)
    requires Coherent(d) && input != [] && Step(d, input[0]).state == ACCEPT
    ensures var d', tail := Step(d, input[0]), input[1..];
      && IsScalar(d'.codep)
      && Utf8(d'.codep) == Pending(d) + [input[0]]
      && var r := Run(d', tail);
      && Run(d, input) == Outcome(Utf16(d'.codep) + r.units, 1 + r.last, 1 + r.stop, r.final)
      && Scalars(d, input) == [d'.codep] + Scalars(d', tail)
      && Complete(d, input) == |Utf8(d'.codep)| + Complete(d', tail)
  {
    hide Step, Utf8, Utf16, Emit, Pending;
    StepSound(d, input[0]);
    EmitIsUtf16(Step(d, input[0]).codep);
  }

  lemma CutAfter<T>(head: seq<T>, tail: seq<T>, n: nat)
    requires n <= |tail|
    ensures (head + tail)[..|head| + n] == head + tail[..n]
    ensures (head + tail)[|head| + n..] == tail[n..]
  {
  }

  lemma ExplainAfterCharacter(d: Decoder, input: seq<Byte>)
    requires Coherent(d) && input != [] && Step(d, input[0]).state == ACCEPT
    requires Explained(Step(d, input[0]), input[1..])
    ensures Explained(d, input)
  {
    hide Step, Utf8, Utf16, Utf8All, Utf16All, Pending, Malformed, Run, Scalars, Complete;
    UnfoldAccept(d, input);
    var d', tail := Step(d, input[0]), input[1..];
    var u, n := Utf8(d'.codep), Complete(d', tail);
    assert Pending(d') + tail == tail;
    assert Pending(d) + input == Pending(d) + [input[0]] + tail == u + tail;
    CutAfter(u, tail, n);
    AllCons(d'.codep, Scalars(d', tail));
  }

  lemma ExplainAfterPending(d: Decoder, input: seq<Byte>)
    requires Coherent(d) && input != []
    requires var s := Step(d, input[0]).state; s != ACCEPT && s != REJECT
    requires Coherent(Step(d, input[0])) && Explained(Step(d, input[0]), input[1..])
    ensures Explained(d, input)
  {
    hide Step, Utf8, Utf16, Emit, Pending, Malformed;
    StepSound(d, input[0]);
    assert Pending(d) + input == Pending(d) + [input[0]] + input[1..];
  }

  lemma {:induction false} RunMeaning(d: Decoder, input: seq<Byte>)
    requires Coherent(d)
    ensures Explained(d, input)
    decreases input
  {
    hide Step, Utf8, Utf16, Emit, Pending, Malformed;
    var all := Pending(d) + input;
    if input == [] {
      assert all == Pending(d);
    } else if Step(d, input[0]).state == REJECT {
      RejectIsMalformed(d, input[0], input[1..]);
      assert all == Pending(d) + [input[0]] + input[1..];
    } else {
      StepSound(d, input[0]);
      RunMeaning(Step(d, input[0]), input[1..]);
      if Step(d, input[0]).state == ACCEPT {
        ExplainAfterCharacter(d, input);
      } else {
        ExplainAfterPending(d, input);
      }
    }
  }

  /** What follows a sequence of complete characters cannot hide one more character. */
  lemma {:induction false} NothingLonger(cs: seq<Scalar>, rest: seq<Byte>, cs': seq<Scalar>)
    requires forall c: Scalar :: !(Utf8(c) <= rest)
    requires Utf8All(cs') <= Utf8All(cs) + rest
    ensures cs' <= cs
  {
    hide Utf8;
    if cs' != [] {
      var bytes := Utf8All(cs) + rest;
      var u, tail' := Utf8(cs'[0]), Utf8All(cs'[1..]);
      assert u == Utf8All(cs')[..|u|] == bytes[..|u|];
      assert cs == [] ==> bytes == rest;
      assert cs != [];
      var v, tail := Utf8(cs[0]), Utf8All(cs[1..]);
      assert bytes == v + (tail + rest);
      SamePrefix(cs'[0], cs[0], bytes);
      assert tail' == Utf8All(cs')[|u|..] <= bytes[|u|..] == tail + rest;
      NothingLonger(cs[1..], rest, cs'[1..]);
    }
  }

  lemma SamePrefix(c: Scalar, c': Scalar, bytes: seq<Byte>)
    requires Utf8(c) <= bytes && Utf8(c') <= bytes
    ensures c == c'
  {
    hide Utf8;
    if |Utf8(c)| <= |Utf8(c')| {
      assert Utf8(c) == bytes[..|Utf8(c)|] == Utf8(c')[..|Utf8(c)|];
      PrefixFree(c, c');
    } else {
      assert Utf8(c') == bytes[..|Utf8(c')|] == Utf8(c)[..|Utf8(c')|];
      PrefixFree(c', c);
    }
  }

  lemma TruncatedHoldsNoCharacter(rest: seq<Byte>, c: Scalar)
    requires Truncated(rest)
    ensures !(Utf8(c) <= rest)
  {
    if Utf8(c) <= rest {
      var c': Scalar :| rest < Utf8(c');
      PrefixFree(c, c');
    }
  }

  /** `cs` is encoded by `input[..last]`, and no encoded sequence that starts `input` goes beyond it. */
  ghost predicate IsLongestDecoding(cs: seq<Scalar>, input: seq<Byte>, last: nat) {
    && last <= |input|
    && Utf8All(cs) == input[..last]
    && forall cs': seq<Scalar> :: Utf8All(cs') <= input ==> cs' <= cs
  }

  /**
   * The decoder's contract. Started in the accepting state it stores, through `src`, the end of
   * the longest prefix that is a concatenation of well-formed encodings, and writes the UTF-16
   * form of exactly those scalars.
   */
  lemma DecodesLongestPrefix(codep: Word32, input: seq<Byte>)
    ensures var r := Run(Decoder(ACCEPT, codep), input);
      exists cs: seq<Scalar> :: IsLongestDecoding(cs, input, r.last) && r.units == Utf16All(cs)
  {
    hide Run, Utf8, Scalars, Pending, Utf8All, Utf16All, Malformed, Truncated;
    var d := Decoder(ACCEPT, codep);
    var r, cs := Run(d, input), Scalars(d, input);
    RunMeaning(d, input);
    assert Pending(d) + input == input;
    FinalState(codep, input);
    var rest := input[r.last..];
    RestHoldsNoCharacter(rest);
    assert input == Utf8All(cs) + rest;
    forall cs': seq<Scalar> | Utf8All(cs') <= input
      ensures cs' <= cs
    {
      NothingLonger(cs, rest, cs');
    }
    assert IsLongestDecoding(cs, input, r.last);
  }

  /** The final state tells which of the three ways to stop it was. */
  lemma FinalState(codep: Word32, input: seq<Byte>)
    ensures var r := Run(Decoder(ACCEPT, codep), input);
      && (r.final.state == ACCEPT <==> r.last == |input|)
      && (r.final.state == REJECT <==> Malformed(input[r.last..]))
      && (r.final.state != ACCEPT && r.final.state != REJECT <==> Truncated(input[r.last..]))
  {
    hide Run, Utf8, Scalars, Pending, Utf8All, Utf16All;
    var d := Decoder(ACCEPT, codep);
    var r := Run(d, input);
    RunMeaning(d, input);
    assert Pending(d) + input == input;
    var rest := input[r.last..];
    if r.final.state != REJECT && r.final.state != ACCEPT {
      PendingIsTruncated(r.final);
    }
    if rest != [] {
      RestHoldsNoCharacter(rest);
    }
  }

  lemma RestHoldsNoCharacter(rest: seq<Byte>)
    requires rest == [] || Truncated(rest) || Malformed(rest)
    ensures forall c: Scalar :: !(Utf8(c) <= rest)
    ensures !(Truncated(rest) && Malformed(rest))
  {
    hide Utf8;
    forall c: Scalar
      ensures !(Utf8(c) <= rest)
    {
      if Truncated(rest) {
        TruncatedHoldsNoCharacter(rest, c);
      }
    }
  }

  // ---------------------------------------------------------------------------
  // Where a run that rejects stopped
  // ---------------------------------------------------------------------------

  /** The bad sequence `all[n..m]`: its last byte is the one that no character has there. */
  ghost predicate Offends(all: seq<Byte>, n: nat, m: nat) {
    n < m <= |all| && Malformed(all[n..m]) && (m == n + 1 || Truncated(all[n..m - 1]))
  }

  ghost predicate StopsBehindOffence(d: Decoder, input: seq<Byte>)
    requires Coherent(d)
  {
    Offends(Pending(d) + input, Complete(d, input), |Pending(d)| + Run(d, input).stop)
  }

  lemma OffendsNow(d: Decoder, input: seq<Byte>)
    requires Coherent(d) && input != [] && Step(d, input[0]).state == REJECT
    ensures StopsBehindOffence(d, input)
  {
    hide Step, Utf8, Pending, Malformed, Truncated;
    var all := Pending(d) + input;
    RejectIsMalformed(d, input[0], []);
    assert all[..|Pending(d)| + 1] == Pending(d) + [input[0]] + [];
    assert all[..|Pending(d)|] == Pending(d);
    if d.state != ACCEPT {
      PendingIsTruncated(d);
    }
  }

  lemma OffendsAfterCharacter(d: Decoder, input: seq<Byte>)
    requires Coherent(d) && input != [] && Step(d, input[0]).state == ACCEPT
    requires StopsBehindOffence(Step(d, input[0]), input[1..])
    ensures StopsBehindOffence(d, input)
  {
    hide Step, Utf8, Utf16, Pending, Run, Scalars, Complete, Offends;
    UnfoldAccept(d, input);
    var d', tail := Step(d, input[0]), input[1..];
    assert Pending(d') + tail == tail;
    assert Pending(d) + input == Utf8(d'.codep) + tail;
    OffendsAfter(Utf8(d'.codep), tail, Complete(d', tail), Run(d', tail).stop);
  }

  lemma OffendsAfterPending(d: Decoder, input: seq<Byte>)
    requires Coherent(d) && input != []
    requires var s := Step(d, input[0]).state; s != ACCEPT && s != REJECT
    requires Coherent(Step(d, input[0])) && StopsBehindOffence(Step(d, input[0]), input[1..])
    ensures StopsBehindOffence(d, input)
  {
    hide Step, Utf8, Utf16, Emit, Pending, Offends;
    StepSound(d, input[0]);
    assert Pending(d) + input == Pending(d) + [input[0]] + input[1..];
  }

  lemma {:induction false} RejectOffends(d: Decoder, input: seq<Byte>)
    requires Coherent(d) && Run(d, input).final.state == REJECT
    ensures StopsBehindOffence(d, input)
    decreases input
  {
    hide Step, Utf8, Emit, Pending, StopsBehindOffence;
    if Step(d, input[0]).state == REJECT {
      OffendsNow(d, input);
    } else {
      StepSound(d, input[0]);
      RejectOffends(Step(d, input[0]), input[1..]);
      if Step(d, input[0]).state == ACCEPT {
        OffendsAfterCharacter(d, input);
      } else {
        OffendsAfterPending(d, input);
      }
    }
  }

  lemma OffendsAfter(head: seq<Byte>, tail: seq<Byte>, n: nat, m: nat)
    requires Offends(tail, n, m)
    ensures Offends(head + tail, |head| + n, |head| + m)
  {
    hide Malformed, Truncated;
    assert (head + tail)[|head| + n..|head| + m] == tail[n..m];
    assert (head + tail)[|head| + n..|head| + m - 1] == tail[n..m - 1];
  }

  /**
   * On an invalid encoding `*src` is the start of the bad sequence, and reading stopped behind its
   * offending byte. The two are the same byte exactly when that byte can start no character.
   */
  lemma RejectPosition(codep: Word32, input: seq<Byte>)
    requires Run(Decoder(ACCEPT, codep), input).final.state == REJECT
    ensures var r := Run(Decoder(ACCEPT, codep), input);
      Offends(input, r.last, r.stop) && (r.stop == r.last + 1 <==> LeadState(input[r.last]) == REJECT)
  {
    hide Run, Step, Utf8, Pending, Malformed, Truncated;
    var d := Decoder(ACCEPT, codep);
    var r := Run(d, input);
    assert Pending(d) + input == input;
    RejectOffends(d, input);
    LeadOfBad(input[r.last]);
    var bad := input[r.last..r.stop];
    assert r.stop == r.last + 1 ==> bad == [input[r.last]];
    if r.stop > r.last + 1 {
      LeadOfTruncated(input[r.last..r.stop - 1]);
    }
  }

  /** A byte that starts a character is not malformed on its own. */
  lemma LeadOfBad(b: Byte)
    ensures Malformed([b]) ==> LeadState(b) == REJECT
  {
    var d := Decoder(ACCEPT, 0);
    StepSound(d, b);
    var r := Step(d, b);
    hide Step, Utf8, LeadState;
    if r.state == ACCEPT {
      assert Utf8(r.codep) == [] + [b];
    } else if r.state != REJECT {
      PendingIsTruncated(r);
      assert Pending(r) == [] + [b];
    }
    assert r.state == LeadState(b) by { StepOfLead(b); }
  }

  lemma StepOfLead(b: Byte)
    ensures Step(Decoder(ACCEPT, 0), b).state == LeadState(b)
  {
  }

  lemma LeadOfTruncated(rest: seq<Byte>)
    requires Truncated(rest)
    ensures LeadState(rest[0]) != REJECT
  {
    hide Utf8, Step;
    var c: Scalar :| rest < Utf8(c);
    StepComplete(Decoder(ACCEPT, 0), rest[0], c);
    StepOfLead(rest[0]);
  }

  /** A letter inside a three-byte character: the position stored is two bytes in front of it. */
  lemma RejectBehindStart(codep: Word32)
    ensures var r := Run(Decoder(ACCEPT, codep), [0xE1, 0x80, 0x41]);
      r.final.state == REJECT && r.last == 0 && r.stop == 3
  {
    var d := Step(Decoder(ACCEPT, codep), 0xE1);
    var d' := Step(d, 0x80);
    assert d.state == 36 && d'.state == 24 && Step(d', 0x41).state == REJECT;
    hide Step, Emit;
    assert [0xE1, 0x80, 0x41][1..] == [0x80, 0x41] && [0x80, 0x41][1..] == [0x41];
    assert Run(d', [0x41]).stop == 1;
    assert Run(d, [0x80, 0x41]).stop == 2;
  }

  // ---------------------------------------------------------------------------
  // Restarting, and how much is written
  // ---------------------------------------------------------------------------

  /** Stopping between any two bytes and resuming from the saved state changes nothing. */
  lemma {:induction false} Resume(d: Decoder, first: seq<Byte>, second: seq<Byte>)
    requires IsState(d.state) && Run(d, first).final.state != REJECT
    ensures var a := Run(d, first); var b := Run(a.final, second); var whole := Run(d, first + second);
      && whole.units == a.units + b.units
      && whole.final == b.final
      && whole.stop == |first| + b.stop
      && whole.last == if b.last == 0 then a.last else |first| + b.last
    decreases first
  {
    hide Step, Emit, Run;
    if first == [] {
      EmptyRun(d);
      assert [] + second == second;
    } else {
      var d' := Step(d, first[0]);
      assert (first + second)[1..] == first[1..] + second;
      Unfold(d, first);
      Unfold(d, first + second);
      Resume(d', first[1..], second);
      var a := Run(d', first[1..]);
      Regroup(if d'.state == ACCEPT then Emit(d'.codep) else [], a.units, Run(a.final, second).units);
    }
  }

  lemma Unfold(d: Decoder, input: seq<Byte>)
    requires IsState(d.state) && input != []
    ensures var d', r := Step(d, input[0]), Run(Step(d, input[0]), input[1..]);
      && (d'.state == REJECT ==> Run(d, input) == Outcome([], 0, 1, d'))
      && (d'.state != REJECT ==> Run(d, input) == Outcome(
            (if d'.state == ACCEPT then Emit(d'.codep) else []) + r.units,
            if d'.state != ACCEPT && r.last == 0 then 0 else 1 + r.last,
            1 + r.stop, r.final))
  {
  }

  /** A run that rejects never looks at what follows. */
  lemma {:induction false} RejectStops(d: Decoder, first: seq<Byte>, second: seq<Byte>)
    requires IsState(d.state) && Run(d, first).final.state == REJECT
    requires first != []
    ensures Run(d, first + second) == Run(d, first)
    decreases first
  {
    hide Emit;
    assert (first + second)[1..] == first[1..] + second;
    if Step(d, first[0]).state != REJECT {
      RejectStops(Step(d, first[0]), first[1..], second);
    }
  }

  /** A caller that feeds chunk after chunk, handing back the saved state, until one rejects. */
  function Feed(d: Decoder, chunks: seq<seq<Byte>>): (seq<Word16>, Decoder)
    requires IsState(d.state)
    decreases |chunks|
  {
    if chunks == [] || d.state == REJECT then ([], d)
    else
      var r := Run(d, chunks[0]);
      var (units, final) := Feed(r.final, chunks[1..]);
      (r.units + units, final)
  }

  /** However the input is cut, the fed decoder writes and ends like one run over all of it. */
  lemma {:induction false} FeedIsRun(d: Decoder, chunks: seq<seq<Byte>>)
    requires IsState(d.state) && d.state != REJECT
    ensures Feed(d, chunks).0 == Run(d, Flatten(chunks)).units
    ensures Feed(d, chunks).1 == Run(d, Flatten(chunks)).final
    decreases |chunks|
  {
    hide Run;
    if chunks == [] {
      EmptyRun(d);
    } else {
      var r, rest := Run(d, chunks[0]), Flatten(chunks[1..]);
      if r.final.state == REJECT {
        EmptyRun(d);
        RejectStops(d, chunks[0], rest);
      } else {
        Resume(d, chunks[0], rest);
        FeedIsRun(r.final, chunks[1..]);
      }
    }
  }

  lemma EmptyRun(d: Decoder)
    requires IsState(d.state)
    ensures Run(d, []) == Outcome([], 0, 0, d)
  {
  }

  /** Fresh input yields at most one unit a byte; finishing a saved character may yield one more. */
  lemma {:induction false} OutputBound(d: Decoder, input: seq<Byte>)
    requires IsState(d.state)
    ensures |Run(d, input).units| <= Run(d, input).last + (if d.state == ACCEPT then 0 else 1)
    decreases input
  {
    if input != [] && Step(d, input[0]).state != REJECT {
      OutputBound(Step(d, input[0]), input[1..]);
    }
  }

  // ---------------------------------------------------------------------------
  // The C loops
  // ---------------------------------------------------------------------------

  /** The processor a build is for; only the first two take 32-bit loads from the input. */
  datatype Arch = X86_64 | I386 | Other

  /** A 32-bit load at offset `s` on a little-endian machine. */
  function Load32(src: seq<Byte>, s: nat): nat
    requires s + 4 <= |src|
  {
    Pack(8, src[s..s + 4])
  }

  /** One test on a loaded word tells whether its four bytes are ASCII. */
  lemma AsciiTest(b: seq<Byte>)
    requires |b| == 4
    ensures And(Pack(8, b), 0x80808080) == 0 <==> forall i | 0 <= i < 4 :: b[i] < 0x80
  {
    hide And, Pow2;
    Pow2Small();
    var masks := [0x80, 0x80, 0x80, 0x80];
    PackFour(8, masks);
    AndPack(8, b, masks);
    var tests := seq(4, i requires 0 <= i < 4 => And(b[i], masks[i]));
    PackIsZero(8, tests);
    forall i | 0 <= i < 4
      ensures tests[i] == 0 <==> b[i] < 0x80
    {
      TopBit(b[i]);
    }
  }

  /** Shifts and masks recover the bytes of a loaded word. */
  lemma AsciiFields(b: seq<Byte>)
    requires |b| == 4
    ensures var w := Pack(8, b);
      && w < 0x1_0000_0000
      && And(w, 0xff) == b[0]
      && And(Shr(w, 8), 0xff) == b[1]
      && And(Shr(w, 16), 0xff) == b[2]
      && And(Shr(w, 24), 0xff) == b[3]
  {
    hide And, Shr, Pow2;
    Pow2Small();
    PackFour(8, b);
    FieldOf(8, b, 0);
    FieldOf(8, b, 1);
    FieldOf(8, b, 2);
    FieldOf(8, b, 3);
    ShrIsDiv(Pack(8, b), 0, 1);
  }

  lemma TopBit(b: Byte)
    ensures And(b, 0x80) == 0 <==> b < 0x80
  {
    hide And, Pow2;
    Pow2Small();
    var low, high := b % 0x80, b / 0x80;
    Split(7, 0x80, low, high, 0, 1);
    WithZero(low);
    AndLowMask(high, 1, 2);
    assert b == low + Pow2(7) * high;
  }

  /** In the accepting state the old code point does not matter, and ASCII passes through. */
  lemma {:induction false} AsciiRun(codep: Word32, codep': Word32, ascii: seq<Byte>, rest: seq<Byte>)
    requires rest != [] && forall i | 0 <= i < |ascii| :: ascii[i] < 0x80
    ensures var r := Run(Decoder(ACCEPT, codep'), rest);
      Run(Decoder(ACCEPT, codep), ascii + rest) ==
        Outcome(ascii + r.units, |ascii| + r.last, |ascii| + r.stop, r.final)
    decreases ascii
  {
    if ascii == [] {
      assert [] + rest == rest;
      OldCodepoint(codep, codep', rest);
    } else {
      var input := ascii + rest;
      assert input[0] == ascii[0] && input[1..] == ascii[1..] + rest;
      AsciiRun(ascii[0], codep', ascii[1..], rest);
      Unfold(Decoder(ACCEPT, codep), input);
      assert Step(Decoder(ACCEPT, codep), input[0]) == Decoder(ACCEPT, ascii[0]);
      hide Run, Step;
      Regroup([ascii[0]], ascii[1..], Run(Decoder(ACCEPT, codep'), rest).units);
      assert [ascii[0]] + ascii[1..] == ascii;
    }
  }

  lemma OldCodepoint(codep: Word32, codep': Word32, input: seq<Byte>)
    requires input != []
    ensures Run(Decoder(ACCEPT, codep), input) == Run(Decoder(ACCEPT, codep'), input)
    ensures [] + Run(Decoder(ACCEPT, codep), input).units == Run(Decoder(ACCEPT, codep), input).units
  {
  }

  /** A run whose first `s` bytes have been read, with `units` written, and that goes on from state `d`. */
  datatype Progress = Progress(units: seq<Word16>, last: nat, s: nat, d: Decoder)

  ghost predicate Continues(src: seq<Byte>, whole: Outcome, p: Progress) {
    && p.last <= p.s <= |src| && IsState(p.d.state)
    && var rest := Run(p.d, src[p.s..]);
    && whole.units == p.units + rest.units
    && whole.last == (if rest.last == 0 then p.last else p.s + rest.last)
    && whole.stop == p.s + rest.stop
    && whole.final == rest.final
  }

  lemma ContinueStart(src: seq<Byte>, d: Decoder)
    requires IsState(d.state)
    ensures Continues(src, Run(d, src), Progress([], 0, 0, d))
  {
    assert src[0..] == src;
  }

  lemma ContinueEnd(src: seq<Byte>, whole: Outcome, p: Progress)
    requires Continues(src, whole, p) && p.s == |src|
    ensures whole == Outcome(p.units, p.last, p.s, p.d)
  {
    EmptyRun(p.d);
    assert src[p.s..] == [];
  }

  /** How reading one byte moves a run on, or ends it. */
  lemma ContinueByte(src: seq<Byte>, whole: Outcome, p: Progress)
    requires Continues(src, whole, p) && p.s < |src|
    ensures var d' := Step(p.d, src[p.s]);
      if d'.state == REJECT then whole == Outcome(p.units, p.last, p.s + 1, d')
      else if d'.state == ACCEPT then
        && |p.units| + |Emit(d'.codep)| <= |whole.units|
        && Continues(src, whole, Progress(p.units + Emit(d'.codep), p.s + 1, p.s + 1, d'))
      else Continues(src, whole, Progress(p.units, p.last, p.s + 1, d'))
  {
    hide Step, Emit, Run;
    var input := src[p.s..];
    assert input[0] == src[p.s] && input[1..] == src[p.s + 1..];
    Unfold(p.d, input);
    var d' := Step(p.d, src[p.s]);
    Regroup(p.units, if d'.state == ACCEPT then Emit(d'.codep) else [], Run(d', src[p.s + 1..]).units);
  }

  /** How a stretch of ASCII that leaves at least one byte moves a run on. */
  lemma ContinueAscii(src: seq<Byte>, whole: Outcome, p: Progress, s: nat, codep: Word32)
    requires Continues(src, whole, p) && p.d.state == ACCEPT
    requires p.s <= s < |src| && forall i | p.s <= i < s :: src[i] < 0x80
    ensures |p.units| + (s - p.s) <= |whole.units|
    ensures p.last == p.s ==> Continues(src, whole, Progress(p.units + src[p.s..s], s, s, Decoder(ACCEPT, codep)))
  {
    hide Run;
    var ascii, rest := src[p.s..s], src[s..];
    assert src[p.s..] == ascii + rest;
    AsciiRun(p.d.codep, codep, ascii, rest);
    Regroup(p.units, ascii, Run(Decoder(ACCEPT, codep), rest).units);
  }

  /** Stores past `mid` only extend what an array holds from `lo`. */
  lemma Extended<T>(before: seq<T>, after: seq<T>, lo: nat, mid: nat, hi: nat, written: seq<T>)
    requires lo <= mid <= hi <= |after| == |before|
    requires |written| == hi - mid && forall i | mid <= i < hi :: after[i] == written[i - mid]
    requires forall i | lo <= i < mid :: after[i] == before[i]
    ensures after[lo..hi] == before[lo..mid] + written
  {
  }

  /** The four stores of the fast path. */
  method PutWord(dest: array<Word16>, d: nat, codepoint: Word32, ghost quad: seq<Byte>) returns (d': nat)
    requires |quad| == 4 && codepoint == Pack(8, quad) && d + 4 <= dest.Length
    modifies dest
    ensures d' == d + 4
    ensures forall i | 0 <= i < 4 :: dest[d + i] == quad[i]
    ensures forall i | 0 <= i < d || d' <= i < dest.Length :: dest[i] == old(dest[i])
  {
    AsciiFields(quad);
    hide *;
    d' := d;
    dest[d'] := And(codepoint, 0xff);
    d' := d' + 1;
    dest[d'] := And(Shr(codepoint, 8), 0xff);
    d' := d' + 1;
    dest[d'] := And(Shr(codepoint, 16), 0xff);
    d' := d' + 1;
    dest[d'] := And(Shr(codepoint, 24), 0xff);
    d' := d' + 1;
  }

  /**
   * The fast path: four bytes at a time, as long as all are ASCII and a fifth one follows.
   * It leaves the last word it loaded in `codepoint`.
   */
  method CopyAscii(dest: array<Word16>, d: nat, src: seq<Byte>, s: nat, codepoint: Word32,
                   ghost whole: Outcome, ghost units: seq<Word16>)
    returns (d': nat, s': nat, codepoint': Word32)
    requires s < |src| && d + (|whole.units| - |units|) <= dest.Length
    requires Continues(src, whole, Progress(units, s, s, Decoder(ACCEPT, codepoint)))
    modifies dest
    ensures s <= s' < |src| && d' == d + (s' - s) <= dest.Length
    ensures forall i | s <= i < s' :: dest[d + (i - s)] == src[i]
    ensures forall i | 0 <= i < d || d' <= i < dest.Length :: dest[i] == old(dest[i])
    ensures Continues(src, whole, Progress(units + src[s..s'], s', s', Decoder(ACCEPT, codepoint')))
  {
    hide Run, And, Shr, Pow2, Pack, Continues;
    d', s', codepoint' := d, s, codepoint;
    ghost var p := Progress(units, s, s, Decoder(ACCEPT, codepoint));
    ContinueAscii(src, whole, p, s, codepoint);
    while s' < |src| - 4
      invariant s <= s' < |src| && d' == d + (s' - s) <= dest.Length
      invariant forall i | s <= i < s' :: src[i] < 0x80 && dest[d + (i - s)] == src[i]
      invariant forall i | 0 <= i < d || d' <= i < dest.Length :: dest[i] == old(dest[i])
    {
      ghost var quad := src[s'..s' + 4];
      AsciiTest(quad);
      AsciiFields(quad);
      codepoint' := Load32(src, s');
      if And(codepoint', 0x80808080) != 0 {
        break;
      }
      assert forall i | s' <= i < s' + 4 :: src[i] == quad[i - s'];
      ContinueAscii(src, whole, p, s' + 4, 0);
      s' := s' + 4;
      d' := PutWord(dest, d', codepoint', quad);
      assert forall i | s' - 4 <= i < s' :: src[i] == quad[i - (s' - 4)] == dest[d + (i - s)];
    }
    ContinueAscii(src, whole, p, s', codepoint');
  }

  /** Writing one decoded code point. */
  method PutCodepoint(dest: array<Word16>, d: nat, codepoint: Word32) returns (d': nat)
    requires d + |Emit(codepoint)| <= dest.Length
    modifies dest
    ensures d' == d + |Emit(codepoint)|
    ensures forall i | d <= i < d' :: dest[i] == Emit(codepoint)[i - d]
    ensures forall i | 0 <= i < d || d' <= i < dest.Length :: dest[i] == old(dest[i])
  {
    hide And, Shr, Pow2;
    Pow2Small();
    ShrIsDiv(codepoint, 10, 0x400);
    AndLowMask(codepoint, 10, 0x400);
    d' := d;
    if codepoint <= 0xFFFF {
      dest[d'] := codepoint;
      d' := d' + 1;
    } else {
      dest[d'] := (0xD7C0 + Shr(codepoint, 10)) % 0x1_0000;
      d' := d' + 1;
      dest[d'] := (0xDC00 + And(codepoint, 0x3FF)) % 0x1_0000;
      d' := d' + 1;
    }
  }

  /**
   * `_hs_text_decode_utf8_int` on the bytes from `*src` to `srcend`. On every architecture it
   * does what the byte-at-a-time run does, writes nothing else, and reads only the input.
   */
  method DecodeUtf8Int(arch: Arch, dest: array<Word16>, destoff: nat, src: seq<Byte>,
                       codepoint0: Word32, state0: nat)
    returns (destoff': nat, src': nat, codepoint0': Word32, state0': nat, s: nat)
    requires IsState(state0)
    requires destoff + |Run(Decoder(state0, codepoint0), src).units| <= dest.Length
    modifies dest
    ensures destoff <= destoff' <= dest.Length
    ensures Run(Decoder(state0, codepoint0), src) ==
      Outcome(dest[destoff..destoff'], src', s, Decoder(state0', codepoint0'))
    ensures forall i | 0 <= i < destoff || destoff' <= i < dest.Length :: dest[i] == old(dest[i])
  {
    hide Run, Step, Emit, Continues;
    var d, last := destoff, 0;
    s := 0;
    var state, codepoint := state0, codepoint0;
    ghost var whole, units := Run(Decoder(state0, codepoint0), src), [];
    ContinueStart(src, Decoder(state0, codepoint0));
    while s < |src|
      invariant 0 <= last <= s <= |src| && d == destoff + |units| <= dest.Length
      invariant IsState(state) && (state == ACCEPT ==> last == s) && (state == REJECT ==> s == 0)
      invariant Continues(src, whole, Progress(units, last, s, Decoder(state, codepoint)))
      invariant dest[destoff..d] == units
      invariant forall i | 0 <= i < destoff || d <= i < dest.Length :: dest[i] == old(dest[i])
    {
      if (arch.X86_64? || arch.I386?) && state == ACCEPT {
        ghost var d0, s0, before := d, s, dest[..];
        d, s, codepoint := CopyAscii(dest, d, src, s, codepoint, whole, units);
        Extended(before, dest[..], destoff, d0, d, src[s0..s]);
        units := units + src[s0..s];
        last := s;
      }

      ContinueByte(src, whole, Progress(units, last, s, Decoder(state, codepoint)));
      var byte := src[s];
      s := s + 1;
      state, codepoint := Decode(state, codepoint, byte);
      if state != ACCEPT {
        if state != REJECT {
          continue;
        }
        break;
      }
      ghost var d0, before := d, dest[..];
      d := PutCodepoint(dest, d, codepoint);
      Extended(before, dest[..], destoff, d0, d, Emit(codepoint));
      units := units + Emit(codepoint);
      last := s;
    }
    if state != REJECT || src == [] {
      ContinueEnd(src, whole, Progress(units, last, s, Decoder(state, codepoint)));
    }
    destoff' := d;
    codepoint0' := codepoint;
    state0' := state;
    src' := last;
  }

  /**
   * `_hs_text_decode_utf8`: starts in the accepting state, whatever the uninitialised code point
   * holds, and returns the end of the longest well-formed prefix.
   */
  method DecodeUtf8(arch: Arch, dest: array<Word16>, destoff: nat, src: seq<Byte>, codepoint0: Word32)
    returns (destoff': nat, src': nat)
    requires destoff + |src| <= dest.Length
    modifies dest
    ensures destoff <= destoff' <= destoff + src'
    ensures exists cs: seq<Scalar> ::
      IsLongestDecoding(cs, src, src') && dest[destoff..destoff'] == Utf16All(cs)
    ensures forall i | 0 <= i < destoff || destoff' <= i < dest.Length :: dest[i] == old(dest[i])
  {
    hide Run, IsLongestDecoding, Utf16All;
    OutputBound(Decoder(ACCEPT, codepoint0), src);
    var codepoint, state, s;
    destoff', src', codepoint, state, s := DecodeUtf8Int(arch, dest, destoff, src, codepoint0, ACCEPT);
    DecodesLongestPrefix(codepoint0, src);
  }

  /** `_hs_text_decode_utf8_state`: the state for the next call, and the end of the last complete character. */
  method DecodeUtf8State(arch: Arch, dest: array<Word16>, destoff: nat, src: seq<Byte>,
                         codepoint0: Word32, state0: nat)
    returns (destoff': nat, codepoint0': Word32, state0': nat, src': nat)
    requires IsState(state0)
    requires destoff + |Run(Decoder(state0, codepoint0), src).units| <= dest.Length
    modifies dest
    ensures var r := Run(Decoder(state0, codepoint0), src);
      && destoff' == destoff + |r.units| && src' == r.last
      && dest[destoff..destoff'] == r.units && Decoder(state0', codepoint0') == r.final
    ensures forall i | 0 <= i < destoff || destoff' <= i < dest.Length :: dest[i] == old(dest[i])
  {
    hide Run;
    var s;
    destoff', src', codepoint0', state0', s := DecodeUtf8Int(arch, dest, destoff, src, codepoint0, state0);
  }

  /**
   * `_hs_text_decode_latin1` with `src` at address `addr`: on x86 single bytes up to an aligned
   * address, then 32-bit loads, then the tail. Every byte becomes the unit of the same value.
   */
  method DecodeLatin1(arch: Arch, dest: array<Word16>, src: seq<Byte>, addr: nat)
    requires |src| <= dest.Length
    modifies dest
    ensures dest[..|src|] == src
    ensures forall i | |src| <= i < dest.Length :: dest[i] == old(dest[i])
  {
    hide Pow2, And, Shr, Pack;
    var p := 0;
    if arch.X86_64? || arch.I386? {
      while p != |src| && (addr + p) % 4 != 0
        invariant p <= |src|
        invariant forall i | 0 <= i < p :: dest[i] == src[i]
        invariant forall i | |src| <= i < dest.Length :: dest[i] == old(dest[i])
      {
        dest[p] := src[p];
        p := p + 1;
      }
      while p < |src| - 3
        invariant p <= |src|
        invariant forall i | 0 <= i < p :: dest[i] == src[i]
        invariant forall i | |src| <= i < dest.Length :: dest[i] == old(dest[i])
      {
        var w := Load32(src, p);
        AsciiFields(src[p..p + 4]);
        var _ := PutWord(dest, p, w, src[p..p + 4]);
        p := p + 4;
      }
    }
    while p != |src|
      invariant p <= |src|
      invariant forall i | 0 <= i < p :: dest[i] == src[i]
      invariant forall i | |src| <= i < dest.Length :: dest[i] == old(dest[i])
    {
      dest[p] := src[p];
      p := p + 1;
    }
  }
}
