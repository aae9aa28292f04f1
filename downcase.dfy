/**
 * `utf8_downcase`: lowercases a string in place. The decoder runs over the
 * string; every time it accepts a character, the encoding of the lowercased
 * code point is written where that character started. Since lowercasing
 * keeps the number of bytes of every encoding, the write never overtakes the
 * read. Once the decoder rejects a byte it stays on REJECT, so nothing after
 * the longest well-formed prefix is touched.
 */
module Utf8Downcase {
  import opened Rfc3629
  import opened Utf8Dfa
  import opened Utf8DfaCorrect
  import opened Utf8Encode
  import opened Utf8Scan
  import opened Utf8Buffer
  import opened CaseFold
  import opened Utf8Lowercase

  /** `p += encode(cp, p)`: the bytes of `Encode(cp)` written at `p`. */
  method EncodeAt(buf: array<byte>, p: nat, cp: uint32) returns (n: nat)
    requires p + EncodedType(cp) <= buf.Length
    modifies buf
    ensures n == EncodedType(cp)
    ensures buf[..] == old(buf[..p]) + Encode(cp) + old(buf[p + n..])
  {
    var e := Encode(cp);
    n := |e|;
    forall k | p <= k < p + n {
      buf[k] := e[k - p];
    }
  }

  /**
   * The buffer after the first `i` bytes of the string `s`: the longest
   * well-formed prefix read so far (`p` bytes) has been lowercased in place,
   * and everything from `p` on is as it was.
   */
  ghost predicate Lowering(table: seq<ConversionBlock>, s: seq<byte>, a: seq<byte>, i: nat,
                           d: Decoder, p: nat)
  {
    i <= |s| && |a| == |s| &&
    d == RunDecoder(Initial(), s[..i]) &&
    p == LongestWellFormed(s[..i]) && p <= i && WellFormed(s[..p]) &&
    a == Lowered(table, s[..p]) + s[p..]
  }

  /** At the start nothing has been read or written. */
  lemma LoweringStart(table: seq<ConversionBlock>, s: seq<byte>)
    ensures Lowering(table, s, s, 0, Initial(), 0)
  {
    assert s[..0] == [];
    assert s[0..] == s;
  }

  /**
   * The next byte of the string has not been written yet, so the loop stops
   * exactly on the terminator.
   */
  lemma LoweringRead(table: seq<ConversionBlock>, s: seq<byte>, a: seq<byte>, i: nat,
                     d: Decoder, p: nat)
    requires LibraryTable(table) && 0 in s && i <= |Text(s)| && Lowering(table, s, a, i, d, p)
    ensures p <= i < |s| == |a| && a[i] == s[i]
    ensures a[i] == 0 <==> i == |Text(s)|
  {
    assert s[..i][..p] == s[..p];
    LoweredLength(table, s[..p]);
    Untouched(a, Lowered(table, s[..p]), s, i);
    var n := Stop(s, |s|);
    assert i < n ==> s[i] != 0;
  }

  /** Past the written part `w`, `a` still holds the bytes of `s`. */
  lemma Untouched(a: seq<byte>, w: seq<byte>, s: seq<byte>, i: nat)
    requires |w| <= i < |s| && a == w + s[|w|..]
    ensures a[i] == s[i]
  {
  }

  /**
   * A byte on which the decoder accepts completes the character `s[p..i+1]`;
   * its lowercase has as many bytes and goes where it stood.
   */
  lemma LoweringAccept(table: seq<ConversionBlock>, s: seq<byte>, a: seq<byte>, i: nat,
                       d: Decoder, p: nat)
    requires LibraryTable(table) && i < |s| && Lowering(table, s, a, i, d, p)
    requires Decode(d, s[i]).state == ACCEPT
    ensures var u := Lower(table, Decode(d, s[i]).codep);
      p + EncodedType(u) == i + 1 &&
      Lowering(table, s, a[..p] + Encode(u) + a[i + 1..], i + 1, Decode(d, s[i]), i + 1)
  {
    ScanStep(s, i);
    LongestStep(s, i);
    CharSlices(s, p, i);
    AcceptIffWellFormed(s[..i + 1]);
    AcceptedValue(s[..i], s[i]);
    var c := s[p..i + 1];
    EncodeCharValue(c);
    LibraryTableLower(table, CharValue(c));
    var u := Lower(table, CharValue(c));
    LoweredLength(table, s[..p]);
    LoweredSnoc(table, s[..p], c);
    Overwrite(a, Lowered(table, s[..p]), s, i, Encode(u));
  }

  /** The slices of `s` around the character `s[p..i+1]`. */
  lemma CharSlices(s: seq<byte>, p: nat, i: nat)
    requires p <= i < |s|
    ensures s[..i + 1] == s[..i] + [s[i]]
    ensures s[..i][p..] + [s[i]] == s[p..i + 1]
    ensures s[..p] + s[p..i + 1] == s[..i + 1]
  {
  }

  /** Writing `e` over `a[p..i+1]`, where `a` is `w` followed by `s[|w|..]`. */
  lemma Overwrite(a: seq<byte>, w: seq<byte>, s: seq<byte>, i: nat, e: seq<byte>)
    requires |w| <= i < |s| && a == w + s[|w|..] && |w| + |e| == i + 1
    ensures a[..|w|] + e + a[i + 1..] == (w + e) + s[i + 1..]
    ensures |a[..|w|] + e + a[i + 1..]| == |s|
  {
    assert a[..|w|] == w;
    assert a[i + 1..] == s[i + 1..];
  }

  /** Any other byte is only read. */
  lemma LoweringPass(table: seq<ConversionBlock>, s: seq<byte>, a: seq<byte>, i: nat,
                     d: Decoder, p: nat)
    requires i < |s| && Lowering(table, s, a, i, d, p)
    requires Decode(d, s[i]).state != ACCEPT
    ensures Lowering(table, s, a, i + 1, Decode(d, s[i]), p)
  {
    ScanStep(s, i);
    LongestStep(s, i);
  }

  /** What the loop leaves behind, stated on the string read. */
  lemma LoweringFinish(table: seq<ConversionBlock>, s: seq<byte>, a: seq<byte>, i: nat,
                       d: Decoder, p: nat)
    requires 0 in s && i == |Text(s)| && Lowering(table, s, a, i, d, p)
    ensures var t := Text(s);
      p == LongestWellFormed(t) && a == Lowered(table, t[..p]) + s[p..]
  {
    assert s[..i][..p] == s[..p];
  }

  /**
   * One pass of the loop of `utf8_downcase`: decode the next byte and, if
   * that completes a character, write its lowercase where it started.
   */
  method LowerStep(table: seq<ConversionBlock>, buf: array<byte>, ghost s: seq<byte>, i: nat,
                   d: Decoder, p: nat)
    returns (d': Decoder, p': nat)
    requires LibraryTable(table) && i < |s| && Lowering(table, s, buf[..], i, d, p)
    requires buf[i] == s[i]
    modifies buf
    ensures Lowering(table, s, buf[..], i + 1, d', p')
  {
    ghost var a := buf[..];
    d' := Decode(d, buf[i]);
    p' := p;
    if d'.state == ACCEPT {
      LoweringAccept(table, s, a, i, d, p);
      LibraryTableLower(table, 0);
      var u := Downcase(table, d'.codep);
      var w := EncodeAt(buf, p, u);
      p' := p + w;
      assert Lowering(table, s, buf[..], i + 1, d', p');
    } else {
      LoweringPass(table, s, a, i, d, p);
      assert Lowering(table, s, buf[..], i + 1, d', p');
    }
  }

  /**
   * `utf8_downcase`: every character of the longest well-formed prefix of
   * the string is replaced, in place, by the encoding of its lowercase;
   * everything from the first byte that is not part of that prefix on
   * (including the terminator) is left as it was. -EINVAL for a null buffer.
   * `table` is the case table the library ships, or the same table with its
   * last block corrected.
   */
  method DowncaseBuffer(table: seq<ConversionBlock>, buf: array?<byte>) returns (r: Status)
    requires LibraryTable(table)
    requires buf != null ==> 0 in buf[..]
    modifies buf
    ensures buf == null ==> r == Fail(EINVAL)
    ensures buf != null ==>
              var t := Text(old(buf[..]));
              var k := LongestWellFormed(t);
              r == Ok(0) && buf[..] == Lowered(table, t[..k]) + old(buf[..])[k..]
  {
    if buf == null {
      return Fail(EINVAL);
    }
    ghost var s := buf[..];
    ghost var n := |Text(s)|;
    assert n < buf.Length && buf[n] == 0;
    var d := Initial();
    var i := 0;
    var p := 0;
    LoweringStart(table, s);
    LoweringRead(table, s, buf[..], i, d, p);
    while buf[i] != 0
      invariant i <= n && Lowering(table, s, buf[..], i, d, p)
      invariant i < |s| == buf.Length && buf[i] == s[i]
      invariant buf[i] == 0 <==> i == n
      decreases n - i
    {
      d, p := LowerStep(table, buf, s, i, d, p);
      i := i + 1;
      LoweringRead(table, s, buf[..], i, d, p);
    }
    LoweringFinish(table, s, buf[..], i, d, p);
    r := Ok(0);
  }
}
