/**
 * What the buffer operations of src/utf8.c compute, stated on the bytes
 * they scan: where a scan stops, how many characters the automaton accepts
 * on the way, the index of the last byte it accepts on, and the code points
 * `utf8_decode` hands out. Each is then related to the well-formed prefix
 * of the scanned bytes in the sense of RFC 3629.
 */
module Utf8Scan {
  import opened Rfc3629
  import opened Utf8Dfa
  import opened Utf8DfaCorrect

  /**
   * A scan `for (i = 0; i < len && s[i]; i++)` stays inside `s`: either the
   * bound does, or a zero byte stops it first.
   */
  predicate Readable(s: seq<byte>, len: nat) {
    len <= |s| || 0 in s
  }

  /**
   * The index at which `for (i = 0; i < len && s[i]; i++)` stops: the first
   * zero byte, or `len` if there is none before it.
   */
  function Stop(s: seq<byte>, len: nat): (n: nat)
    requires Readable(s, len)
    ensures n <= len && n <= |s|
    ensures forall j :: 0 <= j < n ==> s[j] != 0
    ensures n < len ==> n < |s| && s[n] == 0
    decreases len
  {
    if len == 0 || s[0] == 0 then 0
    else
      assert 0 in s ==> 0 in s[1..] by {
        if 0 in s {
          var k :| 0 <= k < |s| && s[k] == 0;
          assert s[1..][k - 1] == 0;
        }
      }
      1 + Stop(s[1..], len - 1)
  }

  /** One more byte through the decoder, and what each scan records for it. */
  lemma ScanStep(s: seq<byte>, i: nat)
    requires i < |s|
    ensures var d := RunDecoder(Initial(), s[..i + 1]);
      d == Decode(RunDecoder(Initial(), s[..i]), s[i]) &&
      d.state == Run(ACCEPT, s[..i + 1]) &&
      Accepts(s[..i + 1]) == Accepts(s[..i]) + (if d.state == ACCEPT then 1 else 0) &&
      LastAccept(s[..i + 1]) == (if d.state == ACCEPT then i else LastAccept(s[..i])) &&
      Emitted(s[..i + 1]) == Emitted(s[..i]) + (if d.state == ACCEPT then [d.codep] else [])
  {
    assert s[..i + 1][..i] == s[..i];
    RunDecoderState(Initial(), s[..i + 1]);
  }

  /** The longest well-formed prefix after one more byte. */
  lemma LongestStep(s: seq<byte>, i: nat)
    requires i < |s|
    ensures LongestWellFormed(s[..i + 1]) ==
              if Run(ACCEPT, s[..i + 1]) == ACCEPT then i + 1 else LongestWellFormed(s[..i])
  {
    assert s[..i + 1] == s[..i] + [s[i]];
    LongestSnoc(s[..i], s[i]);
    AcceptIffWellFormed(s[..i + 1]);
  }

  /** Writing a zero inside a string, or on or past its terminator. */
  lemma TextAfterZero(s: seq<byte>, k: nat)
    requires 0 in s && k < |s|
    ensures Text(s[k := 0]) == if k < |Text(s)| then Text(s)[..k] else Text(s)
  {
    var t := Text(s);
    var s' := s[k := 0];
    if k < |t| {
      assert s' == t[..k] + [0] + s'[k + 1..];
      TextOfString(t[..k], s'[k + 1..]);
    } else {
      TextThenZero(s);
      assert s' == t + [0] + s'[|t| + 1..];
      TextOfString(t, s'[|t| + 1..]);
    }
  }

  /** Where the scan's loop test first fails is where the scan stops. */
  lemma ScanExit(s: seq<byte>, len: nat, i: nat)
    requires Readable(s, len) && i <= len && i <= |s|
    requires 0 !in s[..i]
    requires i == len || (i < |s| && s[i] == 0)
    ensures i == Stop(s, len) && s[..i] == Scanned(s, len)
  {
  }

  /** A scan that goes on past byte `i` is still inside `s`. */
  lemma ScanMore(s: seq<byte>, len: nat, i: nat)
    requires Readable(s, len) && i < len && i < |s| && 0 !in s[..i] && s[i] != 0
    ensures 0 !in s[..i + 1]
    ensures i + 1 < len ==> i + 1 < |s|
  {
    assert s[..i + 1] == s[..i] + [s[i]];
    if i + 1 == |s| {
      assert s[..i + 1] == s;
    }
  }

  /** The bytes such a scan visits. */
  function Scanned(s: seq<byte>, len: nat): (t: seq<byte>)
    requires Readable(s, len)
    ensures t == s[..Stop(s, len)] && 0 !in t
  {
    s[..Stop(s, len)]
  }

  /**
   * The bytes `while (*s)` visits: the string up to its terminating zero.
   * A zero-terminated array is scanned as if bounded by its own length.
   */
  function Text(s: seq<byte>): (t: seq<byte>)
    ensures 0 in s ==> Stop(s, |s|) < |s| && s[Stop(s, |s|)] == 0
  {
    Scanned(s, |s|)
  }

  /**
   * A bound that reaches the terminator changes nothing: the bounded scan of
   * each `n` operation visits the same bytes as its zero-terminated twin.
   */
  lemma ScannedReachesText(s: seq<byte>, len: nat)
    requires 0 in s && len >= |Text(s)|
    ensures Readable(s, len) && Scanned(s, len) == Text(s)
  {
  }

  /** A zero-terminated array holds exactly one string: `Text(s)` then a zero. */
  lemma TextThenZero(s: seq<byte>)
    requires 0 in s
    ensures s[..|Text(s)| + 1] == Text(s) + [0]
  {
  }

  /** Reading a string that is followed by a zero gives back that string. */
  lemma TextOfString(t: seq<byte>, rest: seq<byte>)
    requires 0 !in t
    ensures Text(t + [0] + rest) == t
  {
    var s := t + [0] + rest;
    assert s[|t|] == 0;
    assert forall j :: 0 <= j < |t| ==> s[j] == t[j];
  }

  // ---------------------------------------------------------------------
  // Counting: utf8_count.

  /** The number of bytes after which the automaton is on ACCEPT. */
  function Accepts(s: seq<byte>): (n: nat)
    ensures n <= |s|
    decreases |s|
  {
    if s == [] then 0
    else Accepts(s[..|s| - 1]) + (if Run(ACCEPT, s) == ACCEPT then 1 else 0)
  }

  /**
   * Counting the ACCEPT states counts the characters of the longest
   * well-formed prefix: the automaton accepts exactly on the well-formed
   * prefixes, and once a prefix is ill-formed every longer one is too.
   */
  lemma {:induction false} AcceptsCountsCharacters(s: seq<byte>)
    ensures Accepts(s) == |Codepoints(s[..LongestWellFormed(s)])|
    decreases |s|
  {
    if s == [] {
    } else {
      var t, b := s[..|s| - 1], s[|s| - 1];
      assert s == t + [b];
      AcceptsCountsCharacters(t);
      AcceptIffWellFormed(s);
      LongestSnoc(t, b);
      if WellFormed(s) {
        CodepointsSnoc(t, b);
        assert s[..|s|] == s;
      } else {
        assert s[..LongestWellFormed(t)] == t[..LongestWellFormed(t)];
      }
    }
  }

  /** A well-formed text holds `Accepts` characters. */
  lemma CountOfWellFormed(s: seq<byte>)
    requires WellFormed(s)
    ensures Accepts(s) == |Codepoints(s)|
  {
    AcceptsCountsCharacters(s);
    assert s[..|s|] == s;
  }

  // ---------------------------------------------------------------------
  // The last accepting byte: utf8_len.

  /**
   * The index of the last byte after which the automaton is on ACCEPT, or 0
   * if there is none.
   */
  function LastAccept(s: seq<byte>): (n: nat)
    ensures s != [] ==> n < |s|
    decreases |s|
  {
    if s == [] then 0
    else if Run(ACCEPT, s) == ACCEPT then |s| - 1
    else LastAccept(s[..|s| - 1])
  }

  /**
   * `utf8_len` is one less than the length of the longest well-formed
   * prefix, and 0 when that prefix is empty: an empty prefix and a prefix
   * of one byte give the same answer.
   */
  lemma {:induction false} LastAcceptIsLongest(s: seq<byte>)
    ensures LastAccept(s) == if LongestWellFormed(s) == 0 then 0 else LongestWellFormed(s) - 1
    decreases |s|
  {
    if s != [] {
      var t, b := s[..|s| - 1], s[|s| - 1];
      assert s == t + [b];
      AcceptIffWellFormed(s);
      LongestSnoc(t, b);
      if !WellFormed(s) {
        LastAcceptIsLongest(t);
      }
    }
  }

  // ---------------------------------------------------------------------
  // The code points handed out: utf8_decode.

  /** The accumulator after each byte on which the automaton is on ACCEPT. */
  function Emitted(s: seq<byte>): seq<uint32>
    decreases |s|
  {
    if s == [] then []
    else
      var d := RunDecoder(Initial(), s);
      Emitted(s[..|s| - 1]) + (if d.state == ACCEPT then [d.codep] else [])
  }

  /**
   * `utf8_decode` hands out, in order, the scalar values of the characters
   * of the longest well-formed prefix, and nothing for what follows it.
   */
  lemma {:induction false} EmittedIsCodepoints(s: seq<byte>)
    ensures Emitted(s) == Codepoints(s[..LongestWellFormed(s)])
    ensures |Emitted(s)| == Accepts(s)
    decreases |s|
  {
    if s != [] {
      var t, b := s[..|s| - 1], s[|s| - 1];
      assert s == t + [b];
      EmittedIsCodepoints(t);
      var d := RunDecoder(Initial(), s);
      RunDecoderState(Initial(), s);
      AcceptIffWellFormed(s);
      LongestSnoc(t, b);
      AcceptsCountsCharacters(s);
      if WellFormed(s) {
        AcceptedValue(t, b);
        CodepointsSnoc(t, b);
        assert s[..|s|] == s;
      } else {
        assert s[..LongestWellFormed(t)] == t[..LongestWellFormed(t)];
      }
    }
  }
}
