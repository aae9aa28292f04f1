/**
 * The decoding automaton of src/utf8.c: the byte-class and transition table
 * `g_utf8d` (Bjoern Hoehrmann's DFA) and the single step `decode`, which
 * every buffer operation of the library loops around.
 *
 * States are row offsets into the transition part of the table: ACCEPT is
 * row 0, REJECT row 12, and the seven "more bytes expected" states are the
 * rows 24, 36, ..., 96.
 */
module Utf8Dfa {
  import opened Rfc3629

  /** A C uint32_t. */
  type uint32 = x: int | 0 <= x < 0x1_0000_0000

  const ACCEPT := 0
  const REJECT := 12

  /** An automaton state: the offset of its row in the transition table. */
  type State = q: int | 0 <= q <= 96 && q % 12 == 0

  // The first 256 entries of g_utf8d: the class of every byte value, one
  // constant per line of the source table (32 bytes each).
  const ClassRow0: seq<nat> := [ 0,0,0,0,0,0,0,0,0,0,0,0,0,0,0,0,  0,0,0,0,0,0,0,0,0,0,0,0,0,0,0,0]
  const ClassRow1: seq<nat> := [ 0,0,0,0,0,0,0,0,0,0,0,0,0,0,0,0,  0,0,0,0,0,0,0,0,0,0,0,0,0,0,0,0]
  const ClassRow2: seq<nat> := [ 0,0,0,0,0,0,0,0,0,0,0,0,0,0,0,0,  0,0,0,0,0,0,0,0,0,0,0,0,0,0,0,0]
  const ClassRow3: seq<nat> := [ 0,0,0,0,0,0,0,0,0,0,0,0,0,0,0,0,  0,0,0,0,0,0,0,0,0,0,0,0,0,0,0,0]
  const ClassRow4: seq<nat> := [ 1,1,1,1,1,1,1,1,1,1,1,1,1,1,1,1,  9,9,9,9,9,9,9,9,9,9,9,9,9,9,9,9]
  const ClassRow5: seq<nat> := [ 7,7,7,7,7,7,7,7,7,7,7,7,7,7,7,7,  7,7,7,7,7,7,7,7,7,7,7,7,7,7,7,7]
  const ClassRow6: seq<nat> := [ 8,8,2,2,2,2,2,2,2,2,2,2,2,2,2,2,  2,2,2,2,2,2,2,2,2,2,2,2,2,2,2,2]
  const ClassRow7: seq<nat> := [10,3,3,3,3,3,3,3,3,3,3,3,3,4,3,3, 11,6,6,6,5,8,8,8,8,8,8,8,8,8,8,8]

  // The remaining 108 entries of g_utf8d: for each state, its row of 12, the
  // next state for each byte class. The source lays them out two rows per
  // line: ACCEPT and REJECT, 24 and 36, 48 and 60, 72 and 84, 96.
  const RowAccept: seq<nat> := [ 0,12,24,36,60,96,84,12,12,12,48,72]
  const RowReject: seq<nat> := [12,12,12,12,12,12,12,12,12,12,12,12]
  const Row24: seq<nat> := [12, 0,12,12,12,12,12, 0,12, 0,12,12]
  const Row36: seq<nat> := [12,24,12,12,12,12,12,24,12,24,12,12]
  const Row48: seq<nat> := [12,12,12,12,12,12,12,24,12,12,12,12]
  const Row60: seq<nat> := [12,24,12,12,12,12,12,12,12,24,12,12]
  const Row72: seq<nat> := [12,12,12,12,12,12,12,36,12,36,12,12]
  const Row84: seq<nat> := [12,36,12,12,12,12,12,36,12,36,12,12]
  const Row96: seq<nat> := [12,36,12,12,12,12,12,12,12,12,12,12]

  /**
   * `0xff >> type` for the twelve byte classes: the mask that keeps the
   * payload bits of a lead byte.
   */
  const LeadMask: seq<nat> := [0xFF, 0x7F, 0x3F, 0x1F, 0x0F, 0x07, 0x03, 0x01, 0, 0, 0, 0]

  function Pow2(n: nat): (p: nat)
    ensures p >= 1
  {
    if n == 0 then 1 else 2 * Pow2(n - 1)
  }

  /** LeadMask is the C expression `0xff >> type`, for every class. */
  lemma LeadMaskIsShift(t: nat)
    requires t < 12
    ensures LeadMask[t] == 0xFF / Pow2(t)
    ensures LeadMask[t] + 1 == if t <= 8 then Pow2(8 - t) else 1
  {
    assert Pow2(1) == 2 && Pow2(2) == 4 && Pow2(3) == 8 && Pow2(4) == 16;
    assert Pow2(5) == 32 && Pow2(6) == 64 && Pow2(7) == 128 && Pow2(8) == 256;
    assert Pow2(9) == 512 && Pow2(10) == 1024 && Pow2(11) == 2048;
  }

  // ---------------------------------------------------------------------
  // The class part of the table, by byte ranges.

  /**
   * The byte classes as ranges: ASCII 0, continuation bytes 80-8F 1, 90-9F 9,
   * A0-BF 7, two-byte leads C2-DF 2, E0 10, ED 4, the other three-byte leads
   * 3, F0 11, F1-F3 6, F4 5, and the bytes that never occur in UTF-8 (C0, C1,
   * F5-FF) 8.
   */
  function ClassByRange(b: byte): (t: nat)
    ensures t < 12
  {
    if b <= 0x7F then 0
    else if b <= 0x8F then 1
    else if b <= 0x9F then 9
    else if b <= 0xBF then 7
    else if b <= 0xC1 then 8
    else if b <= 0xDF then 2
    else if b == 0xE0 then 10
    else if b == 0xED then 4
    else if b <= 0xEF then 3
    else if b == 0xF0 then 11
    else if b <= 0xF3 then 6
    else if b == 0xF4 then 5
    else 8
  }

  /**
   * The class of a byte, `g_utf8d[byte]`: entry `byte % 32` of line
   * `byte / 32` of the class part.
   */
  function Class(b: byte): nat {
    if b < 0x20 then ClassRow0[b]
    else if b < 0x40 then ClassRow1[b - 0x20]
    else if b < 0x60 then ClassRow2[b - 0x40]
    else if b < 0x80 then ClassRow3[b - 0x60]
    else if b < 0xA0 then ClassRow4[b - 0x80]
    else if b < 0xC0 then ClassRow5[b - 0xA0]
    else if b < 0xE0 then ClassRow6[b - 0xC0]
    else ClassRow7[b - 0xE0]
  }

  // One lemma per line of the class table: the line agrees with the ranges.
  lemma ClassLine0(b: byte) requires 0x00 <= b < 0x20 ensures Class(b) == ClassByRange(b) {}
  lemma ClassLine1(b: byte) requires 0x20 <= b < 0x40 ensures Class(b) == ClassByRange(b) {}
  lemma ClassLine2(b: byte) requires 0x40 <= b < 0x60 ensures Class(b) == ClassByRange(b) {}
  lemma ClassLine3(b: byte) requires 0x60 <= b < 0x80 ensures Class(b) == ClassByRange(b) {}
  lemma ClassLine4(b: byte) requires 0x80 <= b < 0xA0 ensures Class(b) == ClassByRange(b) {}
  lemma ClassLine5(b: byte) requires 0xA0 <= b < 0xC0 ensures Class(b) == ClassByRange(b) {}
  lemma ClassLine6(b: byte) requires 0xC0 <= b < 0xE0 ensures Class(b) == ClassByRange(b) {}
  lemma ClassLine7(b: byte) requires 0xE0 <= b < 0x100 ensures Class(b) == ClassByRange(b) {}

  /** Every byte's class is the one its range gives. */
  lemma ClassSpec(b: byte)
    ensures Class(b) == ClassByRange(b) && Class(b) < 12
  {
    if b < 0x20 { ClassLine0(b); }
    else if b < 0x40 { ClassLine1(b); }
    else if b < 0x60 { ClassLine2(b); }
    else if b < 0x80 { ClassLine3(b); }
    else if b < 0xA0 { ClassLine4(b); }
    else if b < 0xC0 { ClassLine5(b); }
    else if b < 0xE0 { ClassLine6(b); }
    else { ClassLine7(b); }
  }

  /** The row of the transition part that belongs to a state. */
  function TransitionRow(q: State): (row: seq<nat>)
    ensures |row| == 12
  {
    if q == ACCEPT then RowAccept
    else if q == REJECT then RowReject
    else if q == 24 then Row24
    else if q == 36 then Row36
    else if q == 48 then Row48
    else if q == 60 then Row60
    else if q == 72 then Row72
    else if q == 84 then Row84
    else Row96
  }

  /** Every entry of the transition part is a state. */
  lemma TransitionEntry(q: State, t: nat)
    requires t < 12
    ensures TransitionRow(q)[t] <= 96 && TransitionRow(q)[t] % 12 == 0
  {
    StateCases(q);
  }

  /**
   * The state after one byte, `g_utf8d[256 + state + type]`, read back as
   * byte ranges; NextIsTable shows that it is that entry of the table. From
   * ACCEPT, a lead byte selects how many continuation bytes follow and which
   * ranges the first of them may take (48: after E0, A0-BF; 60: after ED,
   * 80-9F; 72: after F0, 90-BF; 96: after F4, 80-8F; 24, 36, 84: any
   * 80-BF); anything else is REJECT, and REJECT never changes.
   */
  function Next(q: State, b: byte): State {
    if q == ACCEPT then
      (if b <= 0x7F then ACCEPT
       else if 0xC2 <= b <= 0xDF then 24
       else if b == 0xE0 then 48
       else if 0xE1 <= b <= 0xEC || 0xEE <= b <= 0xEF then 36
       else if b == 0xED then 60
       else if b == 0xF0 then 72
       else if 0xF1 <= b <= 0xF3 then 84
       else if b == 0xF4 then 96
       else REJECT)
    else if q == 24 then (if Tail(b) then ACCEPT else REJECT)
    else if q == 36 || q == 84 then
      (if Tail(b) then (if q == 36 then 24 else 36) else REJECT)
    else if q == 48 then (if 0xA0 <= b <= 0xBF then 24 else REJECT)
    else if q == 60 then (if 0x80 <= b <= 0x9F then 24 else REJECT)
    else if q == 72 then (if 0x90 <= b <= 0xBF then 36 else REJECT)
    else if q == 96 then (if 0x80 <= b <= 0x8F then 36 else REJECT)
    else REJECT
  }

  /** `Next` is the table lookup `decode` does, for every state and byte. */
  lemma NextIsTable(q: State, b: byte)
    ensures Class(b) < 12 && Next(q, b) == TransitionRow(q)[Class(b)]
  {
    StateCases(q);
    if q == ACCEPT { TableAccept(b); }
    else if q == REJECT { TableReject(b); }
    else if q == 24 { Table24(b); }
    else if q == 36 { Table36(b); }
    else if q == 48 { Table48(b); }
    else if q == 60 { Table60(b); }
    else if q == 72 { Table72(b); }
    else if q == 84 { Table84(b); }
    else { Table96(b); }
  }

  /** The nine states. */
  lemma StateCases(q: State)
    ensures q == 0 || q == 12 || q == 24 || q == 36 || q == 48 || q == 60 || q == 72 || q == 84 || q == 96
  {
    var k := q / 12;
    assert q == 12 * k && 0 <= k <= 8;
  }

  // The rows of the transition part agree with the ranges, row by row.
  lemma TableAccept(b: byte) ensures Class(b) < 12 && TransitionRow(ACCEPT)[Class(b)] == Next(ACCEPT, b) { ClassSpec(b); }
  lemma TableReject(b: byte) ensures Class(b) < 12 && TransitionRow(REJECT)[Class(b)] == Next(REJECT, b) { ClassSpec(b); }
  lemma Table24(b: byte) ensures Class(b) < 12 && TransitionRow(24)[Class(b)] == Next(24, b) { ClassSpec(b); }
  lemma Table36(b: byte) ensures Class(b) < 12 && TransitionRow(36)[Class(b)] == Next(36, b) { ClassSpec(b); }
  lemma Table48(b: byte) ensures Class(b) < 12 && TransitionRow(48)[Class(b)] == Next(48, b) { ClassSpec(b); }
  lemma Table60(b: byte) ensures Class(b) < 12 && TransitionRow(60)[Class(b)] == Next(60, b) { ClassSpec(b); }
  lemma Table72(b: byte) ensures Class(b) < 12 && TransitionRow(72)[Class(b)] == Next(72, b) { ClassSpec(b); }
  lemma Table84(b: byte) ensures Class(b) < 12 && TransitionRow(84)[Class(b)] == Next(84, b) { ClassSpec(b); }
  lemma Table96(b: byte) ensures Class(b) < 12 && TransitionRow(96)[Class(b)] == Next(96, b) { ClassSpec(b); }

  // ---------------------------------------------------------------------
  // The decode step with its codepoint accumulator.

  /** The pair of out-parameters `decode` updates. */
  datatype Decoder = Decoder(state: State, codep: uint32)

  /**
   * `decode`: on a fresh sequence (state ACCEPT) the accumulator becomes the
   * byte masked by `0xff >> type`; otherwise the accumulator is shifted left
   * by six bits and the low six bits of the byte are or-ed in, as a uint32.
   * The bit operations are written arithmetically: `x & m` with
   * m = 2^k - 1 as `x % (m + 1)`, and, since the shift leaves the low six
   * bits clear, the or as an addition, wrapped to 32 bits.
   */
  function Decode(d: Decoder, b: byte): (r: Decoder)
    ensures r.state == Next(d.state, b)
    ensures d.state == ACCEPT ==> r.codep <= b
    ensures d.state != ACCEPT ==>
              r.codep % 0x40 == b % 0x40 && r.codep / 0x40 == d.codep % 0x400_0000
  {
    var t := ClassByRange(b);
    var codep :=
      if d.state != ACCEPT then (d.codep * 0x40 + b % 0x40) % 0x1_0000_0000
      else b % (LeadMask[t] + 1);
    ShiftIn(d.codep, b % 0x40);
    MaskBelow(b, LeadMask[t] + 1);
    Decoder(Next(d.state, b), codep)
  }

  /**
   * `(acc << 6) | y` in uint32, for six-bit `y`: `y` becomes the low six
   * bits, above them sits the accumulator without its top six bits.
   */
  lemma ShiftIn(acc: uint32, y: nat)
    requires y < 0x40
    ensures var v := (acc * 0x40 + y) % 0x1_0000_0000;
      v % 0x40 == y && v / 0x40 == acc % 0x400_0000
  {
    var q, r := acc / 0x400_0000, acc % 0x400_0000;
    assert acc * 0x40 + y == q * 0x1_0000_0000 + (r * 0x40 + y);
    assert (acc * 0x40 + y) % 0x1_0000_0000 == r * 0x40 + y;
  }

  /** Masking with `m - 1` only clears bits: the result is at most the byte. */
  lemma MaskBelow(b: byte, m: nat)
    requires 0 < m
    ensures b % m <= b
  {
  }

  /** The state after feeding the bytes of `s`, in order, from `q`. */
  function Run(q: State, s: seq<byte>): State
    decreases |s|
  {
    if s == [] then q else Next(Run(q, s[..|s| - 1]), s[|s| - 1])
  }

  /** The decoder after feeding the bytes of `s`, in order, from `d`. */
  function RunDecoder(d: Decoder, s: seq<byte>): Decoder
    decreases |s|
  {
    if s == [] then d else Decode(RunDecoder(d, s[..|s| - 1]), s[|s| - 1])
  }

  lemma {:induction false} RunDecoderState(d: Decoder, s: seq<byte>)
    ensures RunDecoder(d, s).state == Run(d.state, s)
    decreases |s|
  {
    if s != [] {
      RunDecoderState(d, s[..|s| - 1]);
    }
  }

  lemma {:induction false} RunAppend(q: State, s: seq<byte>, t: seq<byte>)
    ensures Run(q, s + t) == Run(Run(q, s), t)
    decreases |t|
  {
    if t == [] {
      assert s + t == s;
    } else {
      var t' := t[..|t| - 1];
      assert (s + t)[..|s + t| - 1] == s + t';
      RunAppend(q, s, t');
    }
  }

  lemma {:induction false} RunDecoderAppend(d: Decoder, s: seq<byte>, t: seq<byte>)
    ensures RunDecoder(d, s + t) == RunDecoder(RunDecoder(d, s), t)
    decreases |t|
  {
    if t == [] {
      assert s + t == s;
    } else {
      var t' := t[..|t| - 1];
      assert (s + t)[..|s + t| - 1] == s + t';
      RunDecoderAppend(d, s, t');
    }
  }

  /** The REJECT row is all REJECT: once rejected, the state never changes. */
  lemma {:induction false} RejectAbsorbing(s: seq<byte>)
    ensures Run(REJECT, s) == REJECT
    decreases |s|
  {
    if s != [] {
      RejectAbsorbing(s[..|s| - 1]);
    }
  }
}
