/**
 * The reference the decoder is measured against: the UTF-8 syntax of
 * section 4 of RFC 3629 and the bit layout of section 3 of RFC 3629.
 * Nothing in this module is taken from the library; it states what a
 * well-formed UTF-8 octet sequence is and which scalar value a character
 * encodes.
 */
module Rfc3629 {

  /** An octet. */
  type byte = b: int | 0 <= b < 0x100

  /** UTF8-tail = %x80-BF */
  predicate Tail(b: byte) {
    0x80 <= b <= 0xBF
  }

  /**
   * UTF8-char = UTF8-1 / UTF8-2 / UTF8-3 / UTF8-4, the grammar of section 4
   * of RFC 3629, alternative by alternative.
   */
  predicate WellFormedChar(c: seq<byte>) {
    // UTF8-1 = %x00-7F
    (|c| == 1 && c[0] <= 0x7F) ||
    // UTF8-2 = %xC2-DF UTF8-tail
    (|c| == 2 && 0xC2 <= c[0] <= 0xDF && Tail(c[1])) ||
    // UTF8-3 = %xE0 %xA0-BF UTF8-tail / %xE1-EC 2( UTF8-tail ) /
    //          %xED %x80-9F UTF8-tail / %xEE-EF 2( UTF8-tail )
    (|c| == 3 && Tail(c[2]) &&
       ((c[0] == 0xE0 && 0xA0 <= c[1] <= 0xBF) ||
        (0xE1 <= c[0] <= 0xEC && Tail(c[1])) ||
        (c[0] == 0xED && 0x80 <= c[1] <= 0x9F) ||
        (0xEE <= c[0] <= 0xEF && Tail(c[1])))) ||
    // UTF8-4 = %xF0 %x90-BF 2( UTF8-tail ) / %xF1-F3 3( UTF8-tail ) /
    //          %xF4 %x80-8F 2( UTF8-tail )
    (|c| == 4 && Tail(c[2]) && Tail(c[3]) &&
       ((c[0] == 0xF0 && 0x90 <= c[1] <= 0xBF) ||
        (0xF1 <= c[0] <= 0xF3 && Tail(c[1])) ||
        (c[0] == 0xF4 && 0x80 <= c[1] <= 0x8F)))
  }

  /**
   * The number of octets a character with this first octet occupies, read off
   * the high-order bits as in the table of section 3 of RFC 3629
   * (0xxxxxxx, 110xxxxx, 1110xxxx, 11110xxx); 0 for a continuation octet or
   * one that no encoding starts with.
   */
  function SequenceLength(lead: byte): (n: nat)
    ensures n <= 4
  {
    if lead < 0x80 then 1
    else if lead < 0xC0 then 0
    else if lead < 0xE0 then 2
    else if lead < 0xF0 then 3
    else if lead < 0xF8 then 4
    else 0
  }

  /** A well-formed character is exactly as long as its first octet says. */
  lemma CharLength(c: seq<byte>)
    requires WellFormedChar(c)
    ensures |c| == SequenceLength(c[0]) && 1 <= |c| <= 4
  {
  }

  /**
   * UTF8-octets = *( UTF8-char ). Since the first octet fixes the length of a
   * character (CharLength), the split into characters is unique and can be
   * read from the front.
   */
  predicate WellFormed(s: seq<byte>)
    decreases |s|
  {
    s == [] ||
    (var n := SequenceLength(s[0]);
     0 < n <= |s| && WellFormedChar(s[..n]) && WellFormed(s[n..]))
  }

  /** A Unicode scalar value: a code point that is not a surrogate. */
  predicate IsScalarValue(v: int) {
    0 <= v < 0x11_0000 && !(0xD800 <= v <= 0xDFFF)
  }

  /**
   * The scalar value a well-formed character encodes: the x bits of the
   * table in section 3 of RFC 3629, most significant first.
   */
  function CharValue(c: seq<byte>): nat
    requires WellFormedChar(c)
  {
    var b0: int, b1: int, b2: int, b3: int := c[0], Octet(c, 1), Octet(c, 2), Octet(c, 3);
    if |c| == 1 then b0
    else if |c| == 2 then (b0 - 0xC0) * 0x40 + (b1 - 0x80)
    else if |c| == 3 then (b0 - 0xE0) * 0x1000 + (b1 - 0x80) * 0x40 + (b2 - 0x80)
    else (b0 - 0xF0) * 0x4_0000 + (b1 - 0x80) * 0x1000 + (b2 - 0x80) * 0x40 + (b3 - 0x80)
  }

  /** The octet at index `i`, or 0 past the end. */
  function Octet(c: seq<byte>, i: nat): byte {
    if i < |c| then c[i] else 0
  }

  /**
   * Every well-formed character encodes a scalar value, in the shortest form
   * (no overlong encodings), so its length is fixed by the value.
   */
  lemma CharValueIsScalar(c: seq<byte>)
    requires WellFormedChar(c)
    ensures IsScalarValue(CharValue(c))
    ensures |c| == 1 <==> CharValue(c) < 0x80
    ensures |c| == 2 <==> 0x80 <= CharValue(c) < 0x800
    ensures |c| == 3 <==> 0x800 <= CharValue(c) < 0x1_0000
    ensures |c| == 4 <==> 0x1_0000 <= CharValue(c)
  {
  }

  /** The scalar values of the characters of a well-formed sequence, in order. */
  function Codepoints(s: seq<byte>): seq<nat>
    requires WellFormed(s)
    decreases |s|
  {
    if s == [] then []
    else
      var n := SequenceLength(s[0]);
      [CharValue(s[..n])] + Codepoints(s[n..])
  }

  /** A single character is a well-formed sequence on its own. */
  lemma CharIsWellFormed(c: seq<byte>)
    requires WellFormedChar(c)
    ensures WellFormed(c) && Codepoints(c) == [CharValue(c)]
  {
    CharLength(c);
    assert c[..|c|] == c;
    assert c[|c|..] == [];
  }

  /** Appending one character to a well-formed sequence. */
  lemma {:induction false} WellFormedSnoc(w: seq<byte>, c: seq<byte>)
    requires WellFormed(w) && WellFormedChar(c)
    ensures WellFormed(w + c)
    ensures Codepoints(w + c) == Codepoints(w) + [CharValue(c)]
    decreases |w|
  {
    if w == [] {
      assert w + c == c;
      CharIsWellFormed(c);
    } else {
      var n := SequenceLength(w[0]);
      var x := w + c;
      WellFormedSnoc(w[n..], c);
      AppendSlices(w, c, n);
      assert WellFormed(x);
      calc {
        Codepoints(x);
        [CharValue(w[..n])] + Codepoints(w[n..] + c);
        [CharValue(w[..n])] + (Codepoints(w[n..]) + [CharValue(c)]);
        ([CharValue(w[..n])] + Codepoints(w[n..])) + [CharValue(c)];
      }
    }
  }

  /** The first `n` octets of `w + c` and what follows them, for `0 < n <= |w|`. */
  lemma AppendSlices(w: seq<byte>, c: seq<byte>, n: nat)
    requires 0 < n <= |w|
    ensures (w + c)[0] == w[0] && (w + c)[..n] == w[..n] && (w + c)[n..] == w[n..] + c
  {
  }

  /** A sequence that some continuation makes well-formed. */
  ghost predicate Viable(s: seq<byte>) {
    exists t :: WellFormed(s + t)
  }

  /**
   * The length of the longest prefix of `s` that is well-formed: where a
   * sequence stops being valid UTF-8, counted in octets.
   */
  function LongestWellFormed(s: seq<byte>): (n: nat)
    ensures n <= |s| && WellFormed(s[..n])
    ensures forall j :: n < j <= |s| ==> !WellFormed(s[..j])
    decreases |s|
  {
    if WellFormed(s) then
      assert s[..|s|] == s;
      |s|
    else
      var n := LongestWellFormed(s[..|s| - 1]);
      assert s[..|s|] == s;
      assert forall j :: 0 <= j <= |s| - 1 ==> s[..|s| - 1][..j] == s[..j];
      n
  }

  /** The longest well-formed prefix after one more octet. */
  lemma LongestSnoc(t: seq<byte>, b: byte)
    ensures LongestWellFormed(t + [b]) ==
              if WellFormed(t + [b]) then |t| + 1 else LongestWellFormed(t)
  {
    assert (t + [b])[..|t|] == t;
    assert (t + [b])[..|t| + 1] == t + [b];
    var k := LongestWellFormed(t);
    assert (t + [b])[..k] == t[..k];
  }

  /** A character followed by a well-formed sequence is well-formed. */
  lemma CharThenWellFormed(c: seq<byte>, w: seq<byte>)
    requires WellFormedChar(c) && WellFormed(w)
    ensures WellFormed(c + w)
    ensures Codepoints(c + w) == [CharValue(c)] + Codepoints(w)
  {
    CharLength(c);
    assert (c + w)[..|c|] == c;
    assert (c + w)[|c|..] == w;
  }

  /**
   * Every non-empty well-formed sequence ends in a character that follows a
   * well-formed sequence.
   */
  lemma {:induction false} LastSplit(s: seq<byte>) returns (k: nat)
    requires WellFormed(s) && s != []
    ensures k < |s| && WellFormed(s[..k]) && WellFormedChar(s[k..])
    decreases |s|
  {
    var n := SequenceLength(s[0]);
    if n == |s| {
      k := 0;
      assert s[..0] == [] && s[0..] == s[..n];
    } else {
      var k' := LastSplit(s[n..]);
      k := n + k';
      assert s[n..][k'..] == s[k..];
      assert s[..k] == s[..n] + s[n..][..k'];
      CharThenWellFormed(s[..n], s[n..][..k']);
    }
  }

  /**
   * A well-formed sequence followed by a character cut short is not
   * well-formed.
   */
  lemma {:induction false} PartialNotWellFormed(w: seq<byte>, p: seq<byte>)
    requires WellFormed(w) && p != [] && |p| < SequenceLength(p[0])
    ensures !WellFormed(w + p)
    decreases |w|
  {
    if w == [] {
      assert w + p == p;
    } else {
      var n := SequenceLength(w[0]);
      PartialNotWellFormed(w[n..], p);
      assert (w + p)[0] == w[0];
      assert (w + p)[..n] == w[..n];
      assert (w + p)[n..] == w[n..] + p;
    }
  }

  /**
   * The character completed by the last octet of a well-formed sequence
   * starts right after the longest well-formed proper prefix.
   */
  lemma LastChar(t: seq<byte>, b: byte)
    requires WellFormed(t + [b])
    ensures WellFormedChar(t[LongestWellFormed(t)..] + [b])
    ensures t + [b] == t[..LongestWellFormed(t)] + (t[LongestWellFormed(t)..] + [b])
  {
    var k := LastSplit(t + [b]);
    LongestAtSplit(t, b, k);
    SplitSnoc(t, b, k);
  }

  lemma SplitSnoc(t: seq<byte>, b: byte, k: nat)
    requires k <= |t|
    ensures (t + [b])[k..] == t[k..] + [b]
    ensures t + [b] == t[..k] + (t[k..] + [b])
  {
  }

  /** The split point of the last character is the longest well-formed prefix. */
  lemma LongestAtSplit(t: seq<byte>, b: byte, k: nat)
    requires k < |t + [b]| && WellFormed((t + [b])[..k]) && WellFormedChar((t + [b])[k..])
    ensures LongestWellFormed(t) == k
  {
    var c := (t + [b])[k..];
    var l := LongestWellFormed(t);
    assert t[..k] == (t + [b])[..k];
    CharLength(c);
    if l > k {
      assert t[..l] == t[..k] + c[..l - k];
      PartialNotWellFormed(t[..k], c[..l - k]);
    }
  }

  /** Appending an octet that completes a character adds its value. */
  lemma CodepointsSnoc(t: seq<byte>, b: byte)
    requires WellFormed(t + [b])
    ensures WellFormedChar(t[LongestWellFormed(t)..] + [b])
    ensures Codepoints(t + [b]) ==
              Codepoints(t[..LongestWellFormed(t)]) + [CharValue(t[LongestWellFormed(t)..] + [b])]
  {
    LastChar(t, b);
    var l := LongestWellFormed(t);
    WellFormedSnoc(t[..l], t[l..] + [b]);
  }

  /** The concatenation of two well-formed sequences is well-formed. */
  lemma {:induction false} WellFormedAppend(a: seq<byte>, b: seq<byte>)
    requires WellFormed(a) && WellFormed(b)
    ensures WellFormed(a + b)
    ensures Codepoints(a + b) == Codepoints(a) + Codepoints(b)
    decreases |b|
  {
    if b == [] {
      assert a + b == a;
    } else {
      var k := LastSplit(b);
      var w, c := b[..k], b[k..];
      AppendSplit(a, b, k);
      WellFormedAppend(a, w);
      WellFormedSnoc(a + w, c);
      WellFormedSnoc(w, c);
      AppendAssoc(Codepoints(a), Codepoints(w), [CharValue(c)]);
    }
  }

  lemma AppendSplit(a: seq<byte>, b: seq<byte>, k: nat)
    requires k <= |b|
    ensures b == b[..k] + b[k..] && a + b == (a + b[..k]) + b[k..]
  {
  }

  /** Concatenation is associative. */
  lemma AppendAssoc<T>(x: seq<T>, y: seq<T>, z: seq<T>)
    ensures (x + y) + z == x + (y + z)
  {
  }
}
