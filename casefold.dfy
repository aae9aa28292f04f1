/**
 * Lowercasing of single code points, as `downcase` in src/utf8.c does it:
 * a table of conversion blocks, each a run of code points that is either
 * shifted as a whole (BLOCK) or in which every other code point, starting
 * with the first, is a capital followed by its small letter (ALTERNATING).
 */
module CaseFold {
  import opened Rfc3629
  import opened Utf8Dfa
  import opened Utf8Encode

  datatype ShiftKind = Block | Alternating

  /** `struct case_shift_data`: a 1-bit kind, a 6-bit length, a 9-bit signed shift. */
  datatype CaseShift = CaseShift(kind: ShiftKind, len: nat, dshift: int)

  /** `struct case_conversion_block`. */
  datatype ConversionBlock = ConversionBlock(start: uint32, shift: CaseShift)

  /** The block's shift fits the bit-fields it is stored in. */
  predicate FitsBitfields(b: ConversionBlock) {
    b.shift.len < 0x40 && -0x100 <= b.shift.dshift < 0x100
  }

  /** `g_ccb`, as written. */
  const CaseTable: seq<ConversionBlock> := [
    ConversionBlock(0x041, CaseShift(Block, 26, 6)),
    ConversionBlock(0x0C0, CaseShift(Block, 23, 9)),
    ConversionBlock(0x0D8, CaseShift(Block, 7, 25)),
    ConversionBlock(0x100, CaseShift(Alternating, 55, 1)),
    ConversionBlock(0x139, CaseShift(Alternating, 15, 1)),
    ConversionBlock(0x14A, CaseShift(Alternating, 45, 1)),
    ConversionBlock(0x179, CaseShift(Alternating, 6, 1)),
    ConversionBlock(0x182, CaseShift(Alternating, 4, 1)),
    ConversionBlock(0x187, CaseShift(Alternating, 2, 1)),
    ConversionBlock(0x18B, CaseShift(Alternating, 2, 1)),
    ConversionBlock(0x191, CaseShift(Alternating, 2, 1)),
    ConversionBlock(0x198, CaseShift(Alternating, 2, 1)),
    ConversionBlock(0x19D, CaseShift(Block, 1, 213))
  ]

  /**
   * `g_ccb` with the last block's shift set so that U+019D LATIN CAPITAL
   * LETTER N WITH LEFT HOOK goes to U+0272, its small letter: a BLOCK entry
   * moves a code point by `len + dshift`, and 0x19D + 1 + 212 = 0x272.
   */
  const CorrectedCaseTable: seq<ConversionBlock> := [
    ConversionBlock(0x041, CaseShift(Block, 26, 6)),
    ConversionBlock(0x0C0, CaseShift(Block, 23, 9)),
    ConversionBlock(0x0D8, CaseShift(Block, 7, 25)),
    ConversionBlock(0x100, CaseShift(Alternating, 55, 1)),
    ConversionBlock(0x139, CaseShift(Alternating, 15, 1)),
    ConversionBlock(0x14A, CaseShift(Alternating, 45, 1)),
    ConversionBlock(0x179, CaseShift(Alternating, 6, 1)),
    ConversionBlock(0x182, CaseShift(Alternating, 4, 1)),
    ConversionBlock(0x187, CaseShift(Alternating, 2, 1)),
    ConversionBlock(0x18B, CaseShift(Alternating, 2, 1)),
    ConversionBlock(0x191, CaseShift(Alternating, 2, 1)),
    ConversionBlock(0x198, CaseShift(Alternating, 2, 1)),
    ConversionBlock(0x19D, CaseShift(Block, 1, 212))
  ]

  /** The block's end, `start + len`, computed in uint32 as the source does. */
  function End(b: ConversionBlock): int {
    (b.start + b.shift.len) % 0x1_0000_0000
  }

  /**
   * The order the source asks of the table: blocks by ascending start and,
   * since `downcase` stops at the first block that starts past the code
   * point, not overlapping: each block ends before the next one starts.
   */
  predicate Ordered(table: seq<ConversionBlock>) {
    forall i :: 0 <= i < |table| ==>
      table[i].start + table[i].shift.len < 0x1_0000_0000 &&
      (i + 1 < |table| ==> table[i].start + table[i].shift.len <= table[i + 1].start)
  }

  /** The block lowers `cp`: it lies in the block and, if alternating, is a capital. */
  predicate Applies(b: ConversionBlock, cp: uint32) {
    b.start <= cp < End(b) &&
    (b.shift.kind == Block || b.start % 2 == cp % 2)
  }

  /** `downcase_block` and `downcase_alt`, in uint32 arithmetic. */
  function Shifted(b: ConversionBlock, cp: uint32): (r: uint32)
    ensures var delta := if b.shift.kind == Block then b.shift.len + b.shift.dshift
                         else b.shift.dshift;
      (r - (cp + delta)) % 0x1_0000_0000 == 0 &&
      (0 <= cp + delta < 0x1_0000_0000 ==> r == cp + delta)
  {
    if b.shift.kind == Block then (cp + b.shift.len + b.shift.dshift) % 0x1_0000_0000
    else (cp + b.shift.dshift) % 0x1_0000_0000
  }

  /**
   * What `downcase` means: the shift of the first block that applies to the
   * code point, and the code point itself when none does.
   */
  /** Some block of `table` applies to `cp` and turns it into `r`. */
  ghost predicate ShiftedBySome(table: seq<ConversionBlock>, cp: uint32, r: uint32)
    decreases |table|
  {
    table != [] &&
    ((Applies(table[0], cp) && r == Shifted(table[0], cp)) || ShiftedBySome(table[1..], cp, r))
  }

  function Lower(table: seq<ConversionBlock>, cp: uint32): (r: uint32)
    ensures r == cp || ShiftedBySome(table, cp, r)
    decreases |table|
  {
    if table == [] then cp
    else if Applies(table[0], cp) then Shifted(table[0], cp)
    else Lower(table[1..], cp)
  }

  /**
   * `downcase`: a scan of the table that stops at the first block starting
   * past the code point. Because the table is ordered, stopping there gives
   * the same answer as looking at every block.
   */
  method Downcase(table: seq<ConversionBlock>, cp: uint32) returns (r: uint32)
    requires Ordered(table)
    ensures r == Lower(table, cp)
  {
    var i := 0;
    while i < |table|
      invariant 0 <= i <= |table|
      invariant Ordered(table[i..])
      invariant Lower(table[i..], cp) == Lower(table, cp)
    {
      assert table[i..][0] == table[i];
      assert table[i..][1..] == table[i + 1..];
      if cp < table[i].start {
        LowerBelow(table[i..], cp);
        return cp;
      }
      var end := (table[i].start + table[i].shift.len) % 0x1_0000_0000;
      if cp >= end {
        i := i + 1;
        continue;
      }
      if table[i].shift.kind == Block {
        return (cp + table[i].shift.len + table[i].shift.dshift) % 0x1_0000_0000;
      }
      if table[i].start % 2 == cp % 2 {
        return (cp + table[i].shift.dshift) % 0x1_0000_0000;
      }
      i := i + 1;
    }
    return cp;
  }

  /** A code point below the first block of an ordered table is left alone. */
  lemma {:induction false} LowerBelow(table: seq<ConversionBlock>, cp: uint32)
    requires Ordered(table) && table != [] && cp < table[0].start
    ensures Lower(table, cp) == cp
    decreases |table|
  {
    if |table| > 1 {
      assert table[1..][0] == table[1];
      LowerBelow(table[1..], cp);
    }
  }

  /**
   * In an ordered table at most one block applies to a code point, so the
   * first that applies is the one: a code point a block lowers is lowered by
   * that block's shift.
   */
  lemma {:induction false} LowerAt(table: seq<ConversionBlock>, i: nat, cp: uint32)
    requires Ordered(table) && i < |table| && Applies(table[i], cp)
    ensures Lower(table, cp) == Shifted(table[i], cp)
    decreases i
  {
    if i > 0 {
      assert !Applies(table[0], cp) by {
        OrderedStarts(table, 1, i);
      }
      assert table[1..][i - 1] == table[i];
      LowerAt(table[1..], i - 1, cp);
    }
  }

  /** In an ordered table every later block starts after an earlier block ends. */
  lemma {:induction false} OrderedStarts(table: seq<ConversionBlock>, j: nat, i: nat)
    requires Ordered(table) && 0 < j <= i < |table|
    ensures table[j - 1].start + table[j - 1].shift.len <= table[i].start
    decreases i - j
  {
    if j < i {
      OrderedStarts(table, j + 1, i);
    }
  }

  /** A code point no block applies to is its own lowercase. */
  lemma {:induction false} LowerUnmapped(table: seq<ConversionBlock>, cp: uint32)
    requires forall i :: 0 <= i < |table| ==> !Applies(table[i], cp)
    ensures Lower(table, cp) == cp
    decreases |table|
  {
    if table != [] {
      assert !Applies(table[0], cp);
      forall i | 0 <= i < |table[1..]| ensures !Applies(table[1..][i], cp) {
        assert table[1..][i] == table[i + 1];
      }
      LowerUnmapped(table[1..], cp);
    }
  }

  /**
   * Only the last block starting at or below a code point can lower it:
   * this is why `downcase` may stop at the first block that starts past it.
   */
  lemma LowerCandidate(table: seq<ConversionBlock>, i: nat, cp: uint32)
    requires Ordered(table) && i < |table| && table[i].start <= cp
    requires i + 1 < |table| ==> cp < table[i + 1].start
    ensures Lower(table, cp) == if Applies(table[i], cp) then Shifted(table[i], cp) else cp
  {
    if Applies(table[i], cp) {
      LowerAt(table, i, cp);
    } else {
      forall j | 0 <= j < |table| ensures !Applies(table[j], cp) {
        if j < i {
          OrderedStarts(table, j + 1, i);
        } else if j > i + 1 {
          OrderedStarts(table, i + 2, j);
        }
      }
      LowerUnmapped(table, cp);
    }
  }

  // ---------------------------------------------------------------------
  // The two tables.

  /** `g_ccb` is in the order the source requires. */
  lemma CaseTableOrdered()
    ensures Ordered(CaseTable) && Ordered(CorrectedCaseTable)
  {
  }

  /** Every shift of `g_ccb` fits the bit-fields of `struct case_shift_data`. */
  lemma CaseTableFits()
    ensures forall i :: 0 <= i < |CaseTable| ==> FitsBitfields(CaseTable[i])
    ensures forall i :: 0 <= i < |CorrectedCaseTable| ==> FitsBitfields(CorrectedCaseTable[i])
  {
  }

  /**
   * The lowercase mapping the table is written for, range by range: the
   * simple lowercase mapping of the Unicode Character Database for the
   * capitals among U+0041..U+019D that the blocks address, and the identity
   * everywhere else.
   */
  function LatinLowercase(cp: uint32): uint32 {
    if cp < 0x41 then cp
    else if cp <= 0x5A then cp + 0x20                                // A..Z
    else if cp < 0xC0 then cp
    else if cp <= 0xD6 then cp + 0x20                                // À..Ö
    else if cp == 0xD7 then cp
    else if cp <= 0xDE then cp + 0x20                                // Ø..Þ
    else if cp < 0x100 then cp
    else if cp == 0x130 then 0x69                                    // İ
    else if cp <= 0x137 then (if cp % 2 == 0 then cp + 1 else cp)    // Ā..Ķ
    else if cp <= 0x148 then (if cp % 2 == 1 then cp + 1 else cp)    // Ĺ..Ň
    else if cp <= 0x177 then (if cp % 2 == 0 then cp + 1 else cp)    // Ŋ..Ŷ
    else if cp <= 0x17E then (if cp % 2 == 1 then cp + 1 else cp)    // Ź..Ž
    else if cp == 0x182 || cp == 0x184 || cp == 0x187 || cp == 0x18B ||
            cp == 0x191 || cp == 0x198 then cp + 1                   // Ƃ Ƅ Ƈ Ƌ Ƒ Ƙ
    else if cp == 0x19D then 0x272                                   // Ɲ
    else cp
  }

  /** The index of the last block that starts at or below `cp`. */
  function LastStart(cp: uint32): (i: nat)
    requires 0x41 <= cp
    ensures i < |CorrectedCaseTable| && CorrectedCaseTable[i].start <= cp
    ensures i + 1 < |CorrectedCaseTable| ==> cp < CorrectedCaseTable[i + 1].start
  {
    if cp < 0xC0 then 0 else if cp < 0xD8 then 1 else if cp < 0x100 then 2
    else if cp < 0x139 then 3 else if cp < 0x14A then 4 else if cp < 0x179 then 5
    else if cp < 0x182 then 6 else if cp < 0x187 then 7 else if cp < 0x18B then 8
    else if cp < 0x191 then 9 else if cp < 0x198 then 10 else if cp < 0x19D then 11
    else 12
  }

  /** What a table does to `cp` if block `i` is its only candidate. */
  function Candidate(table: seq<ConversionBlock>, i: nat, cp: uint32): uint32
    requires i < |table|
  {
    if Applies(table[i], cp) then Shifted(table[i], cp) else cp
  }

  /** In either table, the block `LastStart` picks is the only candidate. */
  lemma TableCandidate(table: seq<ConversionBlock>, cp: uint32)
    requires table == CaseTable || table == CorrectedCaseTable
    requires 0x41 <= cp
    ensures LastStart(cp) < |table|
    ensures Lower(table, cp) == Candidate(table, LastStart(cp), cp)
  {
    CaseTableOrdered();
    TablesShareBlocks();
    LowerCandidate(table, LastStart(cp), cp);
  }

  lemma CandidateLatin1(cp: uint32)
    requires 0x41 <= cp < 0x100
    ensures Candidate(CorrectedCaseTable, LastStart(cp), cp) == LatinLowercase(cp)
  {
    if cp < 0xC0 { assert LastStart(cp) == 0; }
    else if cp < 0xD8 { assert LastStart(cp) == 1; }
    else { assert LastStart(cp) == 2; }
  }

  lemma CandidateLow(cp: uint32)
    requires 0x100 <= cp < 0x14A
    ensures Candidate(CorrectedCaseTable, LastStart(cp), cp) == if cp == 0x130 then 0x131 else LatinLowercase(cp)
  {
    if cp < 0x139 { assert LastStart(cp) == 3; }
    else { assert LastStart(cp) == 4; }
  }

  lemma CandidateMiddle(cp: uint32)
    requires 0x14A <= cp < 0x187
    ensures Candidate(CorrectedCaseTable, LastStart(cp), cp) == LatinLowercase(cp)
  {
    if cp < 0x179 { assert LastStart(cp) == 5; }
    else if cp < 0x182 { assert LastStart(cp) == 6; }
    else { assert LastStart(cp) == 7; }
  }

  lemma CandidateHigh(cp: uint32)
    requires 0x187 <= cp
    ensures Candidate(CorrectedCaseTable, LastStart(cp), cp) == LatinLowercase(cp)
  {
    if cp < 0x18B { assert LastStart(cp) == 8; }
    else if cp < 0x191 { assert LastStart(cp) == 9; }
    else if cp < 0x198 { assert LastStart(cp) == 10; }
    else if cp < 0x19D { assert LastStart(cp) == 11; }
    else { assert LastStart(cp) == 12; }
  }

  /**
   * With the corrected last block, `downcase` is the Latin lowercase mapping
   * everywhere but at U+0130, which the alternating block at U+0100 sends
   * to U+0131; that keeps the two-byte width, where U+0069 would not.
   */
  lemma CorrectedIsLatinLowercase(cp: uint32)
    ensures Lower(CorrectedCaseTable, cp) == if cp == 0x130 then 0x131 else LatinLowercase(cp)
  {
    if cp < 0x41 {
      CaseTableOrdered();
      LowerBelow(CorrectedCaseTable, cp);
    } else {
      TableCandidate(CorrectedCaseTable, cp);
      if cp < 0x100 {
        CandidateLatin1(cp);
      } else if cp < 0x14A {
        CandidateLow(cp);
      } else if cp < 0x187 {
        CandidateMiddle(cp);
      } else {
        CandidateHigh(cp);
      }
    }
  }

  /**
   * `g_ccb` as written sends U+019D to U+0273 (LATIN SMALL LETTER N WITH
   * RETROFLEX HOOK) instead of U+0272, its small letter.
   */
  lemma CaseTableMisplacesU019D()
    ensures Lower(CaseTable, 0x19D) == 0x273 != LatinLowercase(0x19D)
  {
    CaseTableOrdered();
    LowerAt(CaseTable, 12, 0x19D);
  }

  /** The two tables differ in their last block only. */
  lemma TablesShareBlocks()
    ensures |CaseTable| == |CorrectedCaseTable| == 13
    ensures forall i :: 0 <= i < 12 ==> CaseTable[i] == CorrectedCaseTable[i]
    ensures CaseTable[12].start == CorrectedCaseTable[12].start == 0x19D
    ensures CaseTable[12].shift.len == CorrectedCaseTable[12].shift.len == 1
  {
  }

  /** Everywhere but at U+019D the table as written agrees with the corrected one. */
  lemma CaseTablesAgree(cp: uint32)
    requires cp != 0x19D
    ensures Lower(CaseTable, cp) == Lower(CorrectedCaseTable, cp)
  {
    if cp < 0x41 {
      CaseTableOrdered();
      LowerBelow(CaseTable, cp);
      LowerBelow(CorrectedCaseTable, cp);
    } else {
      TableCandidate(CaseTable, cp);
      TableCandidate(CorrectedCaseTable, cp);
      CandidatesAgree(LastStart(cp), cp);
    }
  }

  lemma CandidatesAgree(i: nat, cp: uint32)
    requires i < 13 && (i < 12 || cp != 0x19D)
    ensures Candidate(CaseTable, i, cp) == Candidate(CorrectedCaseTable, i, cp)
  {
    TablesShareBlocks();
  }

  /**
   * No block of either table addresses these capitals of U+0041..U+019D, so
   * `downcase` returns them unchanged although Unicode gives each of them a
   * small letter (U+0178 to U+00FF, U+0181 to U+0253, and so on).
   */
  lemma UnaddressedCapitals(cp: uint32)
    requires cp == 0x178 || cp == 0x181 || cp == 0x186 || cp == 0x189 || cp == 0x18A ||
             cp == 0x18E || cp == 0x18F || cp == 0x190 || cp == 0x193 || cp == 0x194 ||
             cp == 0x196 || cp == 0x197 || cp == 0x19C
    ensures Lower(CaseTable, cp) == cp && Lower(CorrectedCaseTable, cp) == cp
  {
    CorrectedIsLatinLowercase(cp);
    CaseTablesAgree(cp);
  }

  /** The corrected mapping in closed form keeps the width of the encoding. */
  lemma LatinLowercaseWidth(cp: uint32)
    ensures var v := if cp == 0x130 then 0x131 else LatinLowercase(cp);
      EncodedType(v) == EncodedType(cp) && (IsScalarValue(cp) ==> IsScalarValue(v))
  {
  }

  /**
   * Lowercasing keeps the number of bytes of the encoding, which is what
   * lets `utf8_downcase` rewrite a buffer in place, and maps scalar values
   * to scalar values.
   */
  lemma LowerKeepsWidth(cp: uint32)
    ensures EncodedType(Lower(CorrectedCaseTable, cp)) == EncodedType(cp)
    ensures IsScalarValue(cp) ==> IsScalarValue(Lower(CorrectedCaseTable, cp))
  {
    CorrectedIsLatinLowercase(cp);
    LatinLowercaseWidth(cp);
  }

  /** The corrected mapping in closed form is idempotent. */
  lemma LatinLowercaseIdempotent(cp: uint32)
    ensures var v := if cp == 0x130 then 0x131 else LatinLowercase(cp);
      v != 0x130 && LatinLowercase(v) == v
  {
  }

  /** Lowercasing twice is lowercasing once. */
  lemma LowerIdempotent(cp: uint32)
    ensures Lower(CorrectedCaseTable, Lower(CorrectedCaseTable, cp)) == Lower(CorrectedCaseTable, cp)
  {
    var v := Lower(CorrectedCaseTable, cp);
    CorrectedIsLatinLowercase(cp);
    CorrectedIsLatinLowercase(v);
    LatinLowercaseIdempotent(cp);
  }
}
