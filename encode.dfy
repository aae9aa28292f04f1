/**
 * The encoder of src/utf8.c: `encoded_type` picks the number of bytes from
 * the code point alone and `encode1` ... `encode4` lay the bits out as in
 * the table of section 3 of RFC 3629. Neither checks that the code point is
 * a Unicode scalar value, and every byte is truncated to eight bits.
 */
module Utf8Encode {
  import opened Rfc3629
  import opened Utf8Dfa

  /** `encoded_type`: the number of bytes `encode` writes. */
  function EncodedType(cp: uint32): (n: nat)
    ensures 1 <= n <= 4
  {
    if cp < 0x80 then 1
    else if cp < 0x800 then 2
    else if cp < 0x1_0000 then 3
    else 4
  }

  /**
   * `encode`, as the bytes it writes. The shifts are divisions, `& 0x3F` is
   * `% 0x40`, and `| 0xC0` (0xE0, 0xF0) is an addition because the shifted
   * value is below 0x20 (0x10, and for four bytes it is cut to its low four
   * bits by the cast to uint8_t).
   */
  function Encode(cp: uint32): (s: seq<byte>)
    ensures |s| == EncodedType(cp)
  {
    if cp < 0x80 then
      [cp]
    else if cp < 0x800 then
      [0xC0 + cp / 0x40, 0x80 + cp % 0x40]
    else if cp < 0x1_0000 then
      [0xE0 + cp / 0x1000, 0x80 + (cp / 0x40) % 0x40, 0x80 + cp % 0x40]
    else
      [0xF0 + (cp / 0x4_0000) % 0x10, 0x80 + (cp / 0x1000) % 0x40,
       0x80 + (cp / 0x40) % 0x40, 0x80 + cp % 0x40]
  }

  /** A scalar value is encoded as the well-formed character it stands for. */
  lemma EncodeScalar(cp: uint32)
    requires IsScalarValue(cp)
    ensures WellFormedChar(Encode(cp)) && CharValue(Encode(cp)) == cp
  {
    var s := Encode(cp);
    if cp < 0x80 {
    } else if cp < 0x800 {
      assert cp == (cp / 0x40) * 0x40 + cp % 0x40;
    } else if cp < 0x1_0000 {
      var hi, mid, lo := cp / 0x1000, (cp / 0x40) % 0x40, cp % 0x40;
      assert cp / 0x40 == hi * 0x40 + mid;
      assert cp == (cp / 0x40) * 0x40 + lo;
      assert hi == 0xD ==> mid < 0x20;
    } else {
      Split4(cp);
    }
  }

  /** The four six-bit groups of a four-byte code point. */
  lemma Split4(cp: uint32)
    requires 0x1_0000 <= cp < 0x11_0000
    ensures var s := Encode(cp);
      WellFormedChar(s) &&
      cp == (s[0] as int - 0xF0) * 0x4_0000 + (s[1] as int - 0x80) * 0x1000 +
            (s[2] as int - 0x80) * 0x40 + (s[3] as int - 0x80)
  {
    var q1 := cp / 0x40;
    var q2 := q1 / 0x40;
    var q3 := q2 / 0x40;
    var r2 := q2 % 0x40;
    assert cp == q1 * 0x40 + cp % 0x40;
    assert q1 == q2 * 0x40 + q1 % 0x40;
    assert q2 == q3 * 0x40 + r2;
    assert cp / 0x1000 == q2;
    assert cp / 0x4_0000 == q3;
    assert q3 < 0x11;
    assert q3 == 0x10 ==> r2 < 0x10;
    assert q3 == 0 ==> r2 >= 0x10;
  }

  /**
   * The encoder undoes decoding: every well-formed character is the encoding
   * of its value.
   */
  lemma EncodeCharValue(c: seq<byte>)
    requires WellFormedChar(c)
    ensures CharValue(c) < 0x1_0000_0000 && Encode(CharValue(c)) == c
  {
    CharValueIsScalar(c);
    var b0: int, b1: int, b2: int, b3: int := c[0], Octet(c, 1), Octet(c, 2), Octet(c, 3);
    if |c| == 2 {
      EncodeTwo(b0 - 0xC0, b1 - 0x80);
    } else if |c| == 3 {
      EncodeThree(b0 - 0xE0, b1 - 0x80, b2 - 0x80);
    } else if |c| == 4 {
      EncodeFour(b0 - 0xF0, b1 - 0x80, b2 - 0x80, b3 - 0x80);
    }
  }

  lemma EncodeTwo(x: int, y: int)
    requires 2 <= x < 0x20 && 0 <= y < 0x40
    ensures Encode(x * 0x40 + y) == [0xC0 + x, 0x80 + y]
  {
  }

  lemma EncodeThree(x: int, y: int, z: int)
    requires 0 <= x < 0x10 && 0 <= y < 0x40 && 0 <= z < 0x40 && 0x800 <= x * 0x1000 + y * 0x40 + z
    ensures Encode(x * 0x1000 + y * 0x40 + z) == [0xE0 + x, 0x80 + y, 0x80 + z]
  {
    var v := x * 0x1000 + y * 0x40 + z;
    assert v == (x * 0x40 + y) * 0x40 + z;
    assert v / 0x40 == x * 0x40 + y;
    assert v / 0x1000 == x;
  }

  lemma EncodeFour(w: int, x: int, y: int, z: int)
    requires 0 <= w < 8 && 0 <= x < 0x40 && 0 <= y < 0x40 && 0 <= z < 0x40
    requires 0x1_0000 <= w * 0x4_0000 + x * 0x1000 + y * 0x40 + z
    ensures Encode(w * 0x4_0000 + x * 0x1000 + y * 0x40 + z) == [0xF0 + w, 0x80 + x, 0x80 + y, 0x80 + z]
  {
    var v := w * 0x4_0000 + x * 0x1000 + y * 0x40 + z;
    var q1 := (w * 0x40 + x) * 0x40 + y;
    assert v == q1 * 0x40 + z;
    assert v / 0x40 == q1;
    assert v % 0x40 == z;
    assert q1 == (w * 0x40 + x) * 0x40 + y;
    assert q1 % 0x40 == y;
    assert v / 0x1000 == w * 0x40 + x;
    assert (v / 0x1000) % 0x40 == x;
    assert v / 0x4_0000 == w;
  }

  /**
   * `encode` gives back, through decoding, exactly the scalar values: a
   * surrogate or a value past U+10FFFF comes out ill-formed or as the
   * encoding of some other value.
   */
  lemma EncodeRoundTripIff(cp: uint32)
    ensures (WellFormedChar(Encode(cp)) && CharValue(Encode(cp)) == cp) <==> IsScalarValue(cp)
  {
    if IsScalarValue(cp) {
      EncodeScalar(cp);
    } else if WellFormedChar(Encode(cp)) {
      CharValueIsScalar(Encode(cp));
    }
  }

  /**
   * The cast to uint8_t in `encode4` drops the high bits of a code point
   * past the Unicode range: 0x410000 is written as the encoding of U+10000.
   */
  lemma EncodeTruncates()
    ensures Encode(0x41_0000) == Encode(0x1_0000) == [0xF0, 0x90, 0x80, 0x80]
  {
  }
}
