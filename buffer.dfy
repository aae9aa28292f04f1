/**
 * The read-only buffer operations of src/utf8.c: `utf8_check`, `utf8_count`,
 * `utf8_len`, `utf8_decode` and their size-checked `utf8_n...` variants.
 * Each runs the decoder over the bytes up to the first zero (and, for the
 * variants, up to `len` bytes) and is proved against what Utf8Scan says the
 * scan computes, stated in terms of RFC 3629.
 *
 * A buffer is an `array?<byte>`; a null pointer is `null`.
 */
module Utf8Buffer {
  import opened Rfc3629
  import opened Utf8Dfa
  import opened Utf8DfaCorrect
  import opened Utf8Scan

  /** The errno values the library returns, negated. */
  datatype Errno = EINVAL | ENOMEM

  /** A return value: a non-negative result, or a negative errno. */
  datatype Status = Ok(value: nat) | Fail(errno: Errno)

  /** `UTF8_FAULT_INVALID`: the positive fault `utf8_check` reports. */
  const FAULT_INVALID := 1

  /**
   * `utf8_check`: 0 if the string is well-formed UTF-8, the fault
   * `UTF8_FAULT_INVALID` if not, -EINVAL for a null buffer.
   */
  method Check(buf: array?<byte>) returns (r: Status)
    requires buf != null ==> 0 in buf[..]
    ensures buf == null ==> r == Fail(EINVAL)
    ensures buf != null ==> r == Ok(if WellFormed(Text(buf[..])) then 0 else FAULT_INVALID)
  {
    if buf == null {
      return Fail(EINVAL);
    }
    ghost var n := |Text(buf[..])|;
    assert n < buf.Length && buf[n] == 0;
    var d := Initial();
    var i := 0;
    while buf[i] != 0
      invariant i <= n
      decreases n - i
      invariant d == RunDecoder(Initial(), buf[..i])
    {
      ScanStep(buf[..], i);
      assert buf[..i + 1] == buf[..][..i + 1] && buf[..i] == buf[..][..i];
      d := Decode(d, buf[i]);
      i := i + 1;
    }
    RunDecoderState(Initial(), buf[..i]);
    AcceptIffWellFormed(buf[..i]);
    r := Ok(if d.state == ACCEPT then 0 else FAULT_INVALID);
  }

  /**
   * `utf8_ncheck`: as `utf8_check` on the first `len` bytes or up to the
   * first zero, whichever comes first; -EINVAL for a null buffer or `len`
   * of 0.
   */
  method NCheck(buf: array?<byte>, len: nat) returns (r: Status)
    requires buf != null ==> Readable(buf[..], len)
    ensures buf == null || len == 0 ==> r == Fail(EINVAL)
    ensures buf != null && len != 0 ==>
              r == Ok(if WellFormed(Scanned(buf[..], len)) then 0 else FAULT_INVALID)
  {
    if buf == null || len == 0 {
      return Fail(EINVAL);
    }
    var d := Initial();
    var i := 0;
    while i < len && buf[i] != 0
      invariant i <= len && i <= buf.Length
      invariant buf[..i] == buf[..][..i] && 0 !in buf[..i]
      invariant i < len ==> i < buf.Length
      invariant d == RunDecoder(Initial(), buf[..i])
    {
      ScanStep(buf[..], i);
      assert buf[..i + 1] == buf[..][..i + 1] && buf[..i] == buf[..][..i];
      d := Decode(d, buf[i]);
      i := i + 1;
    }
    ScanExit(buf[..], len, i);
    RunDecoderState(Initial(), buf[..i]);
    AcceptIffWellFormed(buf[..i]);
    r := Ok(if d.state == ACCEPT then 0 else FAULT_INVALID);
  }

  /**
   * `utf8_count`: the number of characters of the longest well-formed
   * prefix of the string; -EINVAL for a null buffer.
   */
  method Count(buf: array?<byte>) returns (r: Status)
    requires buf != null ==> 0 in buf[..]
    ensures buf == null ==> r == Fail(EINVAL)
    ensures buf != null ==>
              var t := Text(buf[..]);
              r == Ok(|Codepoints(t[..LongestWellFormed(t)])|)
  {
    if buf == null {
      return Fail(EINVAL);
    }
    ghost var n := |Text(buf[..])|;
    assert n < buf.Length && buf[n] == 0;
    var d := Initial();
    var cnt := 0;
    var i := 0;
    while buf[i] != 0
      invariant i <= n
      decreases n - i
      invariant d == RunDecoder(Initial(), buf[..i])
      invariant cnt == Accepts(buf[..i])
    {
      ScanStep(buf[..], i);
      assert buf[..i + 1] == buf[..][..i + 1] && buf[..i] == buf[..][..i];
      d := Decode(d, buf[i]);
      cnt := cnt + if d.state == ACCEPT then 1 else 0;
      i := i + 1;
    }
    AcceptsCountsCharacters(buf[..i]);
    r := Ok(cnt);
  }

  /**
   * `utf8_ncount`: as `utf8_count` on the first `len` bytes or up to the
   * first zero; -EINVAL for a null buffer or `len` of 0.
   */
  method NCount(buf: array?<byte>, len: nat) returns (r: Status)
    requires buf != null ==> Readable(buf[..], len)
    ensures buf == null || len == 0 ==> r == Fail(EINVAL)
    ensures buf != null && len != 0 ==>
              var t := Scanned(buf[..], len);
              r == Ok(|Codepoints(t[..LongestWellFormed(t)])|)
  {
    if buf == null || len == 0 {
      return Fail(EINVAL);
    }
    var d := Initial();
    var cnt := 0;
    var i := 0;
    while i < len && buf[i] != 0
      invariant i <= len && i <= buf.Length
      invariant buf[..i] == buf[..][..i] && 0 !in buf[..i]
      invariant i < len ==> i < buf.Length
      invariant d == RunDecoder(Initial(), buf[..i])
      invariant cnt == Accepts(buf[..i])
    {
      ScanStep(buf[..], i);
      assert buf[..i + 1] == buf[..][..i + 1] && buf[..i] == buf[..][..i];
      d := Decode(d, buf[i]);
      cnt := cnt + if d.state == ACCEPT then 1 else 0;
      i := i + 1;
    }
    ScanExit(buf[..], len, i);
    AcceptsCountsCharacters(buf[..i]);
    r := Ok(cnt);
  }

  /**
   * `utf8_len`: the index of the last byte of the longest well-formed
   * prefix, which is one less than its length; 0 when that prefix is empty.
   * -EINVAL for a null buffer.
   */
  method Len(buf: array?<byte>) returns (r: Status)
    requires buf != null ==> 0 in buf[..]
    ensures buf == null ==> r == Fail(EINVAL)
    ensures buf != null ==>
              var k := LongestWellFormed(Text(buf[..]));
              r == Ok(if k == 0 then 0 else k - 1)
  {
    if buf == null {
      return Fail(EINVAL);
    }
    ghost var n := |Text(buf[..])|;
    assert n < buf.Length && buf[n] == 0;
    var d := Initial();
    var bc := 0;
    var i := 0;
    while buf[i] != 0
      invariant i <= n
      decreases n - i
      invariant d == RunDecoder(Initial(), buf[..i])
      invariant bc == LastAccept(buf[..i])
    {
      ScanStep(buf[..], i);
      assert buf[..i + 1] == buf[..][..i + 1] && buf[..i] == buf[..][..i];
      d := Decode(d, buf[i]);
      if d.state == ACCEPT {
        bc := i;
      }
      i := i + 1;
    }
    LastAcceptIsLongest(buf[..i]);
    r := Ok(bc);
  }

  /**
   * `utf8_nlen`: as `utf8_len` on the first `len` bytes or up to the first
   * zero. A `len` of 0 is not an error here: the answer is 0.
   */
  method NLen(buf: array?<byte>, len: nat) returns (r: Status)
    requires buf != null ==> Readable(buf[..], len)
    ensures buf == null ==> r == Fail(EINVAL)
    ensures buf != null ==>
              var k := LongestWellFormed(Scanned(buf[..], len));
              r == Ok(if k == 0 then 0 else k - 1)
  {
    if buf == null {
      return Fail(EINVAL);
    }
    var d := Initial();
    var bc := 0;
    var i := 0;
    while i < len && buf[i] != 0
      invariant i <= len && i <= buf.Length
      invariant buf[..i] == buf[..][..i] && 0 !in buf[..i]
      invariant i < len ==> i < buf.Length
      invariant d == RunDecoder(Initial(), buf[..i])
      invariant bc == LastAccept(buf[..i])
    {
      ScanStep(buf[..], i);
      assert buf[..i + 1] == buf[..][..i + 1] && buf[..i] == buf[..][..i];
      d := Decode(d, buf[i]);
      if d.state == ACCEPT {
        bc := i;
      }
      i := i + 1;
    }
    ScanExit(buf[..], len, i);
    LastAcceptIsLongest(buf[..i]);
    r := Ok(bc);
  }

  /**
   * `utf8_decode`: hands the callback, in order, the scalar value of every
   * character of the longest well-formed prefix, and returns 0; -EINVAL for
   * a null buffer, with no call. The calls are returned as a sequence.
   */
  method DecodeBuffer(buf: array?<byte>) returns (r: Status, calls: seq<uint32>)
    requires buf != null ==> 0 in buf[..]
    ensures buf == null ==> r == Fail(EINVAL) && calls == []
    ensures buf != null ==>
              var t := Text(buf[..]);
              r == Ok(0) && calls == Codepoints(t[..LongestWellFormed(t)])
  {
    calls := [];
    if buf == null {
      return Fail(EINVAL), calls;
    }
    ghost var n := |Text(buf[..])|;
    assert n < buf.Length && buf[n] == 0;
    var d := Initial();
    var i := 0;
    while buf[i] != 0
      invariant i <= n
      decreases n - i
      invariant d == RunDecoder(Initial(), buf[..i])
      invariant calls == Emitted(buf[..i])
    {
      ScanStep(buf[..], i);
      assert buf[..i + 1] == buf[..][..i + 1] && buf[..i] == buf[..][..i];
      d := Decode(d, buf[i]);
      if d.state == ACCEPT {
        calls := calls + [d.codep];
      }
      i := i + 1;
    }
    EmittedIsCodepoints(buf[..i]);
    r := Ok(0);
  }
}
