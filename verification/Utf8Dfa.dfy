/**
 * The table-driven UTF-8 automaton shared by the text codecs and the JSON string
 * unescaper, and the small transition function that the table encodes.
 */
module Utf8Dfa {
  import opened Bits

  const ACCEPT: nat := 0
  const REJECT: nat := 12

  /** First part of the table: byte to character class, sixteen bytes a row. */
  const CLASS_ROWS: seq<seq<nat>> := [
    [0,0,0,0,0,0,0,0,0,0,0,0,0,0,0,0], [0,0,0,0,0,0,0,0,0,0,0,0,0,0,0,0],
    [0,0,0,0,0,0,0,0,0,0,0,0,0,0,0,0], [0,0,0,0,0,0,0,0,0,0,0,0,0,0,0,0],
    [0,0,0,0,0,0,0,0,0,0,0,0,0,0,0,0], [0,0,0,0,0,0,0,0,0,0,0,0,0,0,0,0],
    [0,0,0,0,0,0,0,0,0,0,0,0,0,0,0,0], [0,0,0,0,0,0,0,0,0,0,0,0,0,0,0,0],
    [1,1,1,1,1,1,1,1,1,1,1,1,1,1,1,1], [9,9,9,9,9,9,9,9,9,9,9,9,9,9,9,9],
    [7,7,7,7,7,7,7,7,7,7,7,7,7,7,7,7], [7,7,7,7,7,7,7,7,7,7,7,7,7,7,7,7],
    [8,8,2,2,2,2,2,2,2,2,2,2,2,2,2,2], [2,2,2,2,2,2,2,2,2,2,2,2,2,2,2,2],
    [10,3,3,3,3,3,3,3,3,3,3,3,3,4,3,3], [11,6,6,6,5,8,8,8,8,8,8,8,8,8,8,8]
  ]

  /** Second part of the table: one row of twelve classes for each state, states being multiples of 12. */
  const STATE_ROWS: seq<seq<nat>> := [
    [0,12,24,36,60,96,84,12,12,12,48,72], [12,12,12,12,12,12,12,12,12,12,12,12],
    [12,0,12,12,12,12,12,0,12,0,12,12], [12,24,12,12,12,12,12,24,12,24,12,12],
    [12,12,12,12,12,12,12,24,12,12,12,12], [12,24,12,12,12,12,12,12,12,24,12,12],
    [12,12,12,12,12,12,12,36,12,36,12,12], [12,36,12,12,12,12,12,36,12,36,12,12],
    [12,36,12,12,12,12,12,12,12,12,12,12]
  ]

  /** `utf8d[i]`, the two parts laid end to end. */
  function Utf8d(i: nat): nat
    requires i < 364
  {
    if i < 256 then
      ClassRowLength(i / 16);
      CLASS_ROWS[i / 16][i % 16]
    else
      StateRowLength((i - 256) / 12);
      STATE_ROWS[(i - 256) / 12][(i - 256) % 12]
  }

  lemma ClassRowLength(row: nat)
    requires row < 16
    ensures |CLASS_ROWS[row]| == 16
  {
  }

  lemma StateRowLength(row: nat)
    requires row < 9
    ensures |STATE_ROWS[row]| == 12
  {
  }

  /** What a decoder remembers between bytes. */
  datatype Decoder = Decoder(state: nat, codep: Word32)

  predicate IsState(s: nat) {
    s % 12 == 0 && s <= 96
  }

  function Class(b: Byte): (r: nat)
    ensures r < 12
  {
    if b < 0x80 then 0
    else if b < 0x90 then 1
    else if b < 0xA0 then 9
    else if b < 0xC0 then 7
    else if b < 0xC2 then 8
    else if b < 0xE0 then 2
    else if b == 0xE0 then 10
    else if b == 0xED then 4
    else if b < 0xF0 then 3
    else if b == 0xF0 then 11
    else if b < 0xF4 then 6
    else if b == 0xF4 then 5
    else 8
  }

  /** The state a lead byte opens. */
  function LeadState(b: Byte): nat {
    if b < 0x80 then ACCEPT
    else if 0xC2 <= b < 0xE0 then 24
    else if b == 0xE0 then 48
    else if b == 0xED then 60
    else if 0xE0 < b < 0xF0 then 36
    else if b == 0xF0 then 72
    else if 0xF0 < b < 0xF4 then 84
    else if b == 0xF4 then 96
    else REJECT
  }

  /** The payload bits of a byte read in state ACCEPT, also when the byte cannot lead. */
  function LeadBits(b: Byte): nat {
    if b < 0x80 then b
    else if b < 0x90 then b - 0x80
    else if b < 0xA0 then 0
    else if b < 0xC0 then b % 2
    else if b < 0xC2 then 0
    else if b < 0xE0 then b - 0xC0
    else if b == 0xE0 then 0
    else if b < 0xF0 then b - 0xE0
    else if b <= 0xF4 then b - 0xF0
    else 0
  }

  /** The continuation bytes allowed in each state that waits for one, and the state after it. */
  function NextState(state: nat, b: Byte): nat {
    if state == 24 && 0x80 <= b < 0xC0 then ACCEPT
    else if state == 36 && 0x80 <= b < 0xC0 then 24
    else if state == 48 && 0xA0 <= b < 0xC0 then 24
    else if state == 60 && 0x80 <= b < 0xA0 then 24
    else if state == 72 && 0x90 <= b < 0xC0 then 36
    else if state == 84 && 0x80 <= b < 0xC0 then 36
    else if state == 96 && 0x80 <= b < 0x90 then 36
    else REJECT
  }

  /** The automaton without its table. */
  function Step(d: Decoder, b: Byte): (r: Decoder)
    requires IsState(d.state)
    ensures IsState(r.state)
  {
    if d.state == ACCEPT then Decoder(LeadState(b), LeadBits(b))
    else Decoder(NextState(d.state, b), (d.codep * 64 + b % 64) % 0x1_0000_0000)
  }

  lemma ClassTable(b: Byte)
    ensures Utf8d(b) == Class(b)
  {
    var row, column := b / 16, b % 16;
    ClassRowLength(row);
    if row < 8 {
      AsciiRow(row, column);
    } else if row < 14 {
      MiddleRow(row, column);
    } else {
      LastRow(row, column);
    }
  }

  lemma AsciiRow(row: nat, column: nat)
    requires row < 8 && column < 16
    ensures |CLASS_ROWS[row]| == 16 && CLASS_ROWS[row][column] == 0
  {
  }

  lemma MiddleRow(row: nat, column: nat)
    requires 8 <= row < 14 && column < 16
    ensures |CLASS_ROWS[row]| == 16 && CLASS_ROWS[row][column] == Class(16 * row + column)
  {
  }

  lemma LastRow(row: nat, column: nat)
    requires 14 <= row < 16 && column < 16
    ensures |CLASS_ROWS[row]| == 16 && CLASS_ROWS[row][column] == Class(16 * row + column)
  {
  }

  lemma StateTable(state: nat, b: Byte)
    requires IsState(state)
    ensures Utf8d(256 + state + Class(b)) ==
      if state == ACCEPT then LeadState(b) else NextState(state, b)
  {
    hide NextState, LeadState;
    var row, column := state / 12, Class(b);
    StateRowLength(row);
    assert (state + column) / 12 == row && (state + column) % 12 == column;
    if state == ACCEPT {
      LeadRow(b);
    } else {
      ContinuationRow(row, b);
    }
  }

  lemma LeadRow(b: Byte)
    ensures |STATE_ROWS[0]| == 12 && STATE_ROWS[0][Class(b)] == LeadState(b)
  {
  }

  lemma ContinuationRow(row: nat, b: Byte)
    requires 0 < row < 9
    ensures |STATE_ROWS[row]| == 12 && STATE_ROWS[row][Class(b)] == NextState(12 * row, b)
  {
  }

  /** `0xff >> k` is the mask of the low `8 - k` bits, and empty once `k` is 8 or more. */
  lemma ShiftedMask(b: Byte, k: nat)
    ensures And(Shr(0xff, k), b) == if k <= 8 then b % Pow2(8 - k) else 0
  {
    hide Bits.And, Bits.Pow2, Bits.Shr;
    Pow2Small();
    ShrOnes(8, k);
    WithZero(b);
    if k <= 8 {
      AndLowMask(b, 8 - k, Pow2(8 - k));
      AndCommutes(b, Pow2(8 - k) - 1);
    }
  }

  /** `0xff >> type` selects the payload bits of a lead byte. */
  lemma LeadMask(b: Byte)
    ensures And(Shr(0xff, Class(b)), b) == LeadBits(b)
  {
    hide Bits.And, Bits.Pow2, Bits.Shr;
    ShiftedMask(b, Class(b));
    Pow2Small();
  }

  /** The six payload bits of a continuation byte go under the bits collected so far. */
  lemma ContinuationBits(codep: Word32, b: Byte)
    ensures Or(And(b, 0x3f), Shl(codep, 6, 32)) == (codep * 64 + b % 64) % 0x1_0000_0000
  {
    hide Bits.And, Bits.Or, Bits.Pow2;
    Pow2Small();
    Pow2Large();
    AndLowMask(b, 6, 0x40);
    var high := codep % 0x400_0000;
    assert Shl(codep, 6, 32) == 64 * high;
    OrDisjoint(6, 0x40, b % 64, high);
  }

  /** `decode`: one byte through the table. */
  method Decode(state: nat, codep: Word32, byte: Byte) returns (state': nat, codep': Word32)
    requires IsState(state)
    ensures Decoder(state', codep') == Step(Decoder(state, codep), byte)
  {
    hide Bits.And, Bits.Or, Bits.Pow2, Bits.Shl, Bits.Shr, Utf8d, NextState;
    var type_ := Utf8d(byte);
    ClassTable(byte);
    LeadMask(byte);
    ContinuationBits(codep, byte);
    if state != ACCEPT {
      codep' := Or(And(byte, 0x3f), Shl(codep, 6, 32));
    } else {
      codep' := And(Shr(0xff, type_), byte);
    }
    state' := Utf8d(256 + state + type_);
    StateTable(state, byte);
  }
}
