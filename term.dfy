/**
 * `utf8_term` and `utf8_nterm`: terminate a buffer with a zero byte after
 * the index `utf8_len` (`utf8_nlen`) returns. Since that index is the last
 * byte of the longest well-formed prefix, or 0 when there is none, the zero
 * lands right after that prefix when it is not empty, and after the first
 * byte when it is.
 */
module Utf8Term {
  import opened Rfc3629
  import opened Utf8Dfa
  import opened Utf8DfaCorrect
  import opened Utf8Scan
  import opened Utf8Buffer

  /** Where `utf8_term` writes its zero: one past what `utf8_len` returns. */
  function TermIndex(t: seq<byte>): nat {
    LastAccept(t) + 1
  }

  /**
   * The zero goes right after the longest well-formed prefix, except that
   * an empty prefix puts it after the first byte.
   */
  lemma TermIndexIsLongest(t: seq<byte>)
    ensures LongestWellFormed(t) > 0 ==> TermIndex(t) == LongestWellFormed(t)
    ensures LongestWellFormed(t) == 0 ==> TermIndex(t) == 1
  {
    LastAcceptIsLongest(t);
  }

  /**
   * A string that starts with an invalid byte keeps that byte: FF 41 is cut
   * to FF, which is not well-formed.
   */
  lemma TermKeepsInvalidFirstByte()
    ensures TermIndex([0xFF, 0x41]) == 1
    ensures !WellFormed([0xFF, 0x41][..TermIndex([0xFF, 0x41])])
  {
    var t: seq<byte> := [0xFF, 0x41];
    assert t[..1] == [0xFF];
    assert !WellFormed(t) && !WellFormed(t[..1]);
    assert LongestWellFormed(t[..1]) == 0 by {
      assert t[..1][..0] == [];
    }
    TermIndexIsLongest(t);
  }

  /**
   * `utf8_term`: a zero after the index `utf8_len` returns; -EINVAL for a
   * null buffer. The buffer must have room for that zero: an empty string
   * gets its zero at index 1.
   */
  method Term(buf: array?<byte>) returns (r: Status)
    requires buf != null ==> 0 in buf[..] && buf.Length >= 2
    modifies buf
    ensures buf == null ==> r == Fail(EINVAL)
    ensures buf != null ==>
              var t := Text(old(buf[..]));
              r == Ok(0) && buf[..] == old(buf[..])[TermIndex(t) := 0] &&
              Text(buf[..]) == if TermIndex(t) < |t| then t[..TermIndex(t)] else t
  {
    var n := Len(buf);
    if n.Fail? {
      return Fail(EINVAL);
    }
    ghost var t := Text(buf[..]);
    LastAcceptIsLongest(t);
    var bc := n.value + 1;
    TextAfterZero(buf[..], bc);
    buf[bc] := 0;
    r := Ok(0);
  }

  /**
   * `utf8_nterm`: as `utf8_term` within the first `len` bytes; -ENOMEM,
   * with nothing written, when the zero would not fit below `len`.
   */
  method NTerm(buf: array?<byte>, len: nat) returns (r: Status)
    requires buf != null ==> len <= buf.Length
    modifies buf
    ensures buf == null ==> r == Fail(EINVAL)
    ensures buf != null ==>
              var k := TermIndex(Scanned(old(buf[..]), len));
              if k >= len then r == Fail(ENOMEM) && buf[..] == old(buf[..])
              else r == Ok(0) && buf[..] == old(buf[..])[k := 0]
  {
    var n := NLen(buf, len);
    if n.Fail? {
      return Fail(EINVAL);
    }
    LastAcceptIsLongest(Scanned(buf[..], len));
    var bc := n.value + 1;
    if bc >= len {
      return Fail(ENOMEM);
    }
    buf[bc] := 0;
    r := Ok(0);
  }

  // ---------------------------------------------------------------------
  // Terminating at the first invalid byte, as the header describes it.

  /**
   * The length of the longest well-formed prefix of what a scan of `len`
   * bytes reads: `utf8_nlen` with the index of the byte after each
   * accepted character.
   */
  method ValidLength(buf: array<byte>, len: nat) returns (k: nat)
    requires Readable(buf[..], len)
    ensures k == LongestWellFormed(Scanned(buf[..], len))
  {
    var d := Initial();
    k := 0;
    var i := 0;
    while i < len && buf[i] != 0
      invariant i <= len && i <= buf.Length
      invariant buf[..i] == buf[..][..i] && 0 !in buf[..i]
      invariant i < len ==> i < buf.Length
      invariant d == RunDecoder(Initial(), buf[..i])
      invariant k == LongestWellFormed(buf[..i])
    {
      ScanStep(buf[..], i);
      LongestStep(buf[..], i);
      assert buf[..i + 1] == buf[..][..i + 1];
      d := Decode(d, buf[i]);
      if d.state == ACCEPT {
        k := i + 1;
      }
      i := i + 1;
    }
    ScanExit(buf[..], len, i);
  }

  /**
   * `utf8_term` as the header describes it: the zero goes right after the
   * longest well-formed prefix, so what is left is always well-formed. No
   * room beyond the string is needed.
   */
  method TermCorrected(buf: array?<byte>) returns (r: Status)
    requires buf != null ==> 0 in buf[..]
    modifies buf
    ensures buf == null ==> r == Fail(EINVAL)
    ensures buf != null ==>
              var t := Text(old(buf[..]));
              r == Ok(0) && buf[..] == old(buf[..])[LongestWellFormed(t) := 0] &&
              Text(buf[..]) == t[..LongestWellFormed(t)] && WellFormed(Text(buf[..]))
  {
    if buf == null {
      return Fail(EINVAL);
    }
    var k := ValidLength(buf, buf.Length);
    ghost var t := Text(buf[..]);
    TextAfterZero(buf[..], k);
    buf[k] := 0;
    r := Ok(0);
  }

  /**
   * `utf8_nterm` as the header describes it: the zero goes right after the
   * longest well-formed prefix of the first `len` bytes; -ENOMEM when all
   * `len` bytes are well-formed and leave no room.
   */
  method NTermCorrected(buf: array?<byte>, len: nat) returns (r: Status)
    requires buf != null ==> len <= buf.Length
    modifies buf
    ensures buf == null ==> r == Fail(EINVAL)
    ensures buf != null ==>
              var k := LongestWellFormed(Scanned(old(buf[..]), len));
              if k >= len then r == Fail(ENOMEM) && buf[..] == old(buf[..])
              else r == Ok(0) && buf[..] == old(buf[..])[k := 0] && WellFormed(buf[..k])
  {
    if buf == null {
      return Fail(EINVAL);
    }
    var k := ValidLength(buf, len);
    if k >= len {
      return Fail(ENOMEM);
    }
    ghost var t := Scanned(buf[..], len);
    assert t[..k] == buf[..k];
    buf[k] := 0;
    assert buf[..k] == t[..k];
    r := Ok(0);
  }
}
