/**
 * What `utf8_downcase` does to a well-formed text: every character is
 * replaced by the encoding of its lowercased code point. Because the table
 * keeps the number of bytes of every encoding, the result has the length of
 * the text and can be written over it.
 */
module Utf8Lowercase {
  import opened Rfc3629
  import opened Utf8Dfa
  import opened Utf8Encode
  import opened CaseFold

  /** The table the library ships (`g_ccb`), or the same table with its last block corrected. */
  predicate LibraryTable(table: seq<ConversionBlock>) {
    table == CaseTable || table == CorrectedCaseTable
  }

  /**
   * Either table is ordered, keeps the width of every encoding, sends scalar
   * values to scalar values and is idempotent.
   */
  lemma LibraryTableLower(table: seq<ConversionBlock>, cp: uint32)
    requires LibraryTable(table)
    ensures Ordered(table)
    ensures EncodedType(Lower(table, cp)) == EncodedType(cp)
    ensures IsScalarValue(cp) ==> IsScalarValue(Lower(table, cp))
    ensures Lower(table, Lower(table, cp)) == Lower(table, cp)
  {
    CaseTableOrdered();
    LowerKeepsWidth(cp);
    LowerIdempotent(cp);
    if table == CaseTable {
      if cp == 0x19D {
        CaseTableMisplacesU019D();
        CaseTablesAgree(0x273);
        CorrectedIsLatinLowercase(0x273);
      } else {
        CaseTablesAgree(cp);
        var v := Lower(CorrectedCaseTable, cp);
        CorrectedIsLatinLowercase(cp);
        assert v != 0x19D;
        CaseTablesAgree(v);
      }
    }
  }

  /**
   * The text `utf8_downcase` writes for a well-formed text: each character
   * re-encoded after lowercasing its scalar value.
   */
  function Lowered(table: seq<ConversionBlock>, w: seq<byte>): seq<byte>
    requires WellFormed(w)
    decreases |w|
  {
    if w == [] then []
    else
      var n := SequenceLength(w[0]);
      CharValueIsScalar(w[..n]);
      Encode(Lower(table, CharValue(w[..n]))) + Lowered(table, w[n..])
  }

  /** Lowercasing a character followed by a text. */
  lemma LoweredCons(table: seq<ConversionBlock>, c: seq<byte>, w: seq<byte>)
    requires WellFormedChar(c) && WellFormed(w)
    ensures WellFormed(c + w) && CharValue(c) < 0x1_0000_0000
    ensures Lowered(table, c + w) == Encode(Lower(table, CharValue(c))) + Lowered(table, w)
  {
    CharThenWellFormed(c, w);
    CharLength(c);
    CharValueIsScalar(c);
    assert (c + w)[..|c|] == c;
    assert (c + w)[|c|..] == w;
  }

  /** Lowercasing a text followed by a character: how the loop builds the result. */
  lemma {:induction false} LoweredSnoc(table: seq<ConversionBlock>, w: seq<byte>, c: seq<byte>)
    requires WellFormed(w) && WellFormedChar(c)
    ensures WellFormed(w + c) && CharValue(c) < 0x1_0000_0000
    ensures Lowered(table, w + c) == Lowered(table, w) + Encode(Lower(table, CharValue(c)))
    decreases |w|
  {
    WellFormedSnoc(w, c);
    CharValueIsScalar(c);
    if w == [] {
      assert w + c == c + [];
      LoweredCons(table, c, []);
    } else {
      var n := SequenceLength(w[0]);
      LoweredSnoc(table, w[n..], c);
      var e := LoweredFirst(table, w, c);
      AppendAssoc(e, Lowered(table, w[n..]), Encode(Lower(table, CharValue(c))));
    }
  }

  /** The first character of a text is lowercased first, whatever follows the text. */
  lemma LoweredFirst(table: seq<ConversionBlock>, w: seq<byte>, c: seq<byte>) returns (e: seq<byte>)
    requires WellFormed(w) && w != [] && WellFormedChar(c)
    ensures var n := SequenceLength(w[0]);
      WellFormed(w[n..] + c) && WellFormed(w + c) &&
      Lowered(table, w) == e + Lowered(table, w[n..]) &&
      Lowered(table, w + c) == e + Lowered(table, w[n..] + c)
  {
    var n := SequenceLength(w[0]);
    var h, rest := w[..n], w[n..];
    CharValueIsScalar(h);
    e := Encode(Lower(table, CharValue(h)));
    FrontSplit(w, c, n);
    WellFormedSnoc(rest, c);
    LoweredCons(table, h, rest + c);
  }

  lemma FrontSplit(w: seq<byte>, c: seq<byte>, n: nat)
    requires n <= |w|
    ensures w + c == w[..n] + (w[n..] + c)
  {
  }


  /** The lowercased text is exactly as long as the text. */
  lemma {:induction false} LoweredLength(table: seq<ConversionBlock>, w: seq<byte>)
    requires LibraryTable(table) && WellFormed(w)
    ensures |Lowered(table, w)| == |w|
    decreases |w|
  {
    if w != [] {
      var n := SequenceLength(w[0]);
      var c := w[..n];
      EncodeCharValue(c);
      LibraryTableLower(table, CharValue(c));
      LoweredLength(table, w[n..]);
    }
  }

  /** `after` holds, one for one, the lowercase of the scalar values in `before`. */
  predicate LowerEach(table: seq<ConversionBlock>, before: seq<nat>, after: seq<nat>) {
    |after| == |before| &&
    forall k :: 0 <= k < |before| ==>
      IsScalarValue(before[k]) && after[k] == Lower(table, before[k])
  }

  lemma LowerEachCons(table: seq<ConversionBlock>, v: nat, u: nat, before: seq<nat>, after: seq<nat>)
    requires IsScalarValue(v) && u == Lower(table, v) && LowerEach(table, before, after)
    ensures LowerEach(table, [v] + before, [u] + after)
  {
    var b, a := [v] + before, [u] + after;
    forall k | 0 <= k < |b|
      ensures IsScalarValue(b[k]) && a[k] == Lower(table, b[k])
    {
      if k > 0 {
        assert b[k] == before[k - 1] && a[k] == after[k - 1];
      }
    }
  }

  /**
   * The lowercased text is well-formed and holds, character for character,
   * the lowercase of the text's scalar values.
   */
  lemma {:induction false} LoweredCodepoints(table: seq<ConversionBlock>, w: seq<byte>)
    requires LibraryTable(table) && WellFormed(w)
    ensures WellFormed(Lowered(table, w))
    ensures LowerEach(table, Codepoints(w), Codepoints(Lowered(table, w)))
    decreases |w|
  {
    if w != [] {
      var n := SequenceLength(w[0]);
      var c, rest := w[..n], w[n..];
      CharValueIsScalar(c);
      var v := CharValue(c);
      var u := Lower(table, v);
      LibraryTableLower(table, v);
      EncodeScalar(u);
      LoweredCodepoints(table, rest);
      CharThenWellFormed(Encode(u), Lowered(table, rest));
      LowerEachCons(table, v, u, Codepoints(rest), Codepoints(Lowered(table, rest)));
    }
  }

  /** Lowercasing a lowercased text changes nothing. */
  lemma {:induction false} LoweredIdempotent(table: seq<ConversionBlock>, w: seq<byte>)
    requires LibraryTable(table) && WellFormed(w)
    ensures WellFormed(Lowered(table, w))
    ensures Lowered(table, Lowered(table, w)) == Lowered(table, w)
    decreases |w|
  {
    LoweredCodepoints(table, w);
    if w != [] {
      var n := SequenceLength(w[0]);
      var c, rest := w[..n], w[n..];
      CharValueIsScalar(c);
      var u := Lower(table, CharValue(c));
      LibraryTableLower(table, CharValue(c));
      EncodeScalar(u);
      LoweredIdempotent(table, rest);
      LoweredCodepoints(table, rest);
      LoweredCons(table, Encode(u), Lowered(table, rest));
    }
  }
}
