/**
 * What the automaton of src/utf8.c computes, stated against RFC 3629:
 * from ACCEPT it is back on ACCEPT exactly after a well-formed sequence,
 * it is on REJECT exactly when no continuation can make the input
 * well-formed, and on each ACCEPT its accumulator holds the scalar value of
 * the character just read.
 */
module Utf8DfaCorrect {
  import opened Rfc3629
  import opened Utf8Dfa

  /** The state after the prefix of length k + 1, from the one of length k. */
  lemma RunPrefix(q: State, s: seq<byte>, k: nat)
    requires k < |s|
    ensures Run(q, s[..k + 1]) == Next(Run(q, s[..k]), s[k])
  {
    assert s[..k + 1][..k] == s[..k];
  }

  /** The decoder after the prefix of length k + 1, from the one of length k. */
  lemma RunDecoderPrefix(d: Decoder, s: seq<byte>, k: nat)
    requires k < |s|
    ensures RunDecoder(d, s[..k + 1]) == Decode(RunDecoder(d, s[..k]), s[k])
  {
    assert s[..k + 1][..k] == s[..k];
  }

  /** Splitting a run at any point. */
  lemma RunSplit(q: State, s: seq<byte>, n: nat)
    requires n <= |s|
    ensures Run(q, s) == Run(Run(q, s[..n]), s[n..])
  {
    var a, b := s[..n], s[n..];
    assert a + b == s;
    RunAppend(q, a, b);
  }

  // Short runs, byte by byte.
  lemma Run1(q: State, s: seq<byte>)
    requires |s| == 1
    ensures Run(q, s) == Next(q, s[0])
  {
    assert s[..0] == [];
  }

  lemma Run2(q: State, s: seq<byte>)
    requires |s| == 2
    ensures Run(q, s) == Next(Next(q, s[0]), s[1])
  {
    Run1(q, s[..1]);
  }

  lemma Run3(q: State, s: seq<byte>)
    requires |s| == 3
    ensures Run(q, s) == Next(Next(Next(q, s[0]), s[1]), s[2])
  {
    Run2(q, s[..2]);
  }

  lemma Run4(q: State, s: seq<byte>)
    requires |s| == 4
    ensures Run(q, s) == Next(Next(Next(Next(q, s[0]), s[1]), s[2]), s[3])
  {
    Run3(q, s[..3]);
  }

  /**
   * The automaton on one character. Fed a prefix of at most as many bytes as
   * its first byte announces, it reaches ACCEPT exactly when the prefix is
   * complete and well-formed, and REJECT when it is complete and ill-formed.
   */
  lemma CharRun(p: seq<byte>)
    requires 1 <= |p| <= SequenceLength(p[0])
    ensures Run(ACCEPT, p) == ACCEPT <==> (|p| == SequenceLength(p[0]) && WellFormedChar(p))
    ensures |p| == SequenceLength(p[0]) && !WellFormedChar(p) ==> Run(ACCEPT, p) == REJECT
  {
    if |p| == 1 { CharRun1(p); }
    else if |p| == 2 { CharRun2(p); }
    else if |p| == 3 { CharRun3(p); }
    else { CharRun4(p); }
  }

  lemma CharRun1(p: seq<byte>)
    requires |p| == 1 <= SequenceLength(p[0])
    ensures Run(ACCEPT, p) == ACCEPT <==> (|p| == SequenceLength(p[0]) && WellFormedChar(p))
    ensures |p| == SequenceLength(p[0]) && !WellFormedChar(p) ==> Run(ACCEPT, p) == REJECT
  {
    Run1(ACCEPT, p);
  }

  lemma CharRun2(p: seq<byte>)
    requires |p| == 2 <= SequenceLength(p[0])
    ensures Run(ACCEPT, p) == ACCEPT <==> (|p| == SequenceLength(p[0]) && WellFormedChar(p))
    ensures |p| == SequenceLength(p[0]) && !WellFormedChar(p) ==> Run(ACCEPT, p) == REJECT
  {
    Run2(ACCEPT, p);
  }

  lemma CharRun3(p: seq<byte>)
    requires |p| == 3 <= SequenceLength(p[0])
    ensures Run(ACCEPT, p) == ACCEPT <==> (|p| == SequenceLength(p[0]) && WellFormedChar(p))
    ensures |p| == SequenceLength(p[0]) && !WellFormedChar(p) ==> Run(ACCEPT, p) == REJECT
  {
    Run3(ACCEPT, p);
    var q1 := Next(ACCEPT, p[0]);
    var q2 := Next(q1, p[1]);
  }

  lemma CharRun4(p: seq<byte>)
    requires |p| == 4 <= SequenceLength(p[0])
    ensures Run(ACCEPT, p) == ACCEPT <==> WellFormedChar(p)
    ensures !WellFormedChar(p) ==> Run(ACCEPT, p) == REJECT
  {
    Run4(ACCEPT, p);
    var q1 := Next(ACCEPT, p[0]);
    var q2 := Next(q1, p[1]);
    var q3 := Next(q2, p[2]);
  }

  /** A byte that cannot start a character rejects the whole input. */
  lemma RejectFirst(s: seq<byte>)
    requires s != [] && SequenceLength(s[0]) == 0
    ensures Run(ACCEPT, s) == REJECT
  {
    RunSplit(ACCEPT, s, 1);
    Run1(ACCEPT, s[..1]);
    RejectAbsorbing(s[1..]);
  }

  /**
   * Starting from ACCEPT, the automaton ends in ACCEPT after `s` exactly when
   * `s` is a concatenation of well-formed UTF-8 characters.
   */
  lemma {:induction false} AcceptIffWellFormed(s: seq<byte>)
    ensures Run(ACCEPT, s) == ACCEPT <==> WellFormed(s)
    decreases |s|
  {
    if s != [] {
      var n := SequenceLength(s[0]);
      if n == 0 {
        RejectFirst(s);
      } else if n > |s| {
        CharRun(s);
      } else {
        CharRun(s[..n]);
        RunSplit(ACCEPT, s, n);
        if WellFormedChar(s[..n]) {
          AcceptIffWellFormed(s[n..]);
        } else {
          RejectAbsorbing(s[n..]);
        }
      }
    }
  }

  /** Bytes that complete a sequence the automaton has not rejected. */
  function Completion(q: State): (t: seq<byte>)
    ensures |t| <= 3
  {
    if q == 24 then [0x80]
    else if q == 36 || q == 60 then [0x80, 0x80]
    else if q == 48 then [0xA0, 0x80]
    else if q == 72 then [0x90, 0x80, 0x80]
    else if q == 84 || q == 96 then [0x80, 0x80, 0x80]
    else []
  }

  lemma CompletionAccepts(q: State)
    requires q != REJECT
    ensures Run(q, Completion(q)) == ACCEPT
  {
    StateCases(q);
    var t := Completion(q);
    if |t| == 1 {
      Run1(q, t);
    } else if |t| == 2 {
      Run2(q, t);
    } else if |t| == 3 {
      Run3(q, t);
    }
  }

  /**
   * Any ill-formed byte drives the automaton to REJECT: it is on REJECT after
   * `s` exactly when no continuation makes `s` well-formed.
   */
  lemma RejectIffNotViable(s: seq<byte>)
    ensures Run(ACCEPT, s) == REJECT <==> !Viable(s)
  {
    var q := Run(ACCEPT, s);
    if q == REJECT {
      forall t | true ensures !WellFormed(s + t) {
        RunAppend(ACCEPT, s, t);
        RejectAbsorbing(t);
        AcceptIffWellFormed(s + t);
      }
    } else {
      var t := Completion(q);
      CompletionAccepts(q);
      RunAppend(ACCEPT, s, t);
      AcceptIffWellFormed(s + t);
    }
  }

  // ---------------------------------------------------------------------
  // The accumulator.

  lemma Decoder1(d: Decoder, s: seq<byte>)
    requires |s| == 1
    ensures RunDecoder(d, s) == Decode(d, s[0])
  {
    assert s[..0] == [];
  }

  lemma Decoder2(d: Decoder, s: seq<byte>)
    requires |s| == 2
    ensures RunDecoder(d, s) == Decode(Decode(d, s[0]), s[1])
  {
    Decoder1(d, s[..1]);
  }

  lemma Decoder3(d: Decoder, s: seq<byte>)
    requires |s| == 3
    ensures RunDecoder(d, s) == Decode(Decode(Decode(d, s[0]), s[1]), s[2])
  {
    Decoder2(d, s[..2]);
  }

  lemma Decoder4(d: Decoder, s: seq<byte>)
    requires |s| == 4
    ensures RunDecoder(d, s) == Decode(Decode(Decode(Decode(d, s[0]), s[1]), s[2]), s[3])
  {
    Decoder3(d, s[..3]);
  }

  /**
   * The first byte of a character, read on ACCEPT, leaves its payload bits in
   * the accumulator: the byte minus the marker bits of its length.
   */
  lemma LeadPayload(a: uint32, b: byte)
    requires Next(ACCEPT, b) != REJECT
    ensures Decode(Decoder(ACCEPT, a), b).codep ==
              if b < 0x80 then b else if b < 0xE0 then b - 0xC0 else if b < 0xF0 then b - 0xE0 else b - 0xF0
  {
    var t := ClassByRange(b);
    var codep := Decode(Decoder(ACCEPT, a), b).codep;
    assert codep == b % (LeadMask[t] + 1);
    if b < 0x80 {
      assert LeadMask[t] + 1 == 0x100;
    } else if b < 0xE0 {
      assert LeadMask[t] + 1 == 0x40;
      assert b / 0x40 == 3;
    } else if b == 0xE0 {
      assert LeadMask[t] + 1 == 1;
    } else if b == 0xED {
      assert LeadMask[t] + 1 == 0x10;
    } else if b < 0xF0 {
      assert LeadMask[t] + 1 == 0x20;
      assert b / 0x20 == 7;
    } else if b == 0xF0 {
      assert LeadMask[t] + 1 == 1;
    } else if b == 0xF4 {
      assert LeadMask[t] + 1 == 8;
    } else {
      assert LeadMask[t] + 1 == 4;
      assert b / 4 == 0x3C;
    }
  }

  /** A continuation byte, read in the middle of a character, appends six bits. */
  lemma TailPayload(d: Decoder, b: byte)
    requires d.state != ACCEPT && Tail(b) && d.codep < 0x4_0000
    ensures Decode(d, b).codep == d.codep * 0x40 + (b - 0x80)
  {
    assert b % 0x40 == b - 0x80;
    assert d.codep * 0x40 + (b - 0x80) < 0x1_0000_0000;
  }

  /**
   * The accumulator after a well-formed character read from ACCEPT is the
   * scalar value the character encodes, whatever it held before.
   */
  lemma DecodeChar(c: seq<byte>, a: uint32)
    requires WellFormedChar(c)
    ensures RunDecoder(Decoder(ACCEPT, a), c) == Decoder(ACCEPT, CharValue(c))
  {
    CharAccepts(c);
    RunDecoderState(Decoder(ACCEPT, a), c);
    if |c| == 1 {
      Decoder1(Decoder(ACCEPT, a), c);
      LeadPayload(a, c[0]);
    } else if |c| == 2 {
      DecodeChar2(c, a);
    } else if |c| == 3 {
      DecodeChar3(c, a);
    } else {
      DecodeChar4(c, a);
    }
  }

  lemma DecodeChar2(c: seq<byte>, a: uint32)
    requires WellFormedChar(c) && |c| == 2
    ensures RunDecoder(Decoder(ACCEPT, a), c).codep == CharValue(c)
  {
    var d1 := Decode(Decoder(ACCEPT, a), c[0]);
    Decoder2(Decoder(ACCEPT, a), c);
    LeadPayload(a, c[0]);
    TailPayload(d1, c[1]);
  }

  lemma DecodeChar3(c: seq<byte>, a: uint32)
    requires WellFormedChar(c) && |c| == 3
    ensures RunDecoder(Decoder(ACCEPT, a), c).codep == CharValue(c)
  {
    var d1 := Decode(Decoder(ACCEPT, a), c[0]);
    var d2 := Decode(d1, c[1]);
    Decoder3(Decoder(ACCEPT, a), c);
    LeadPayload(a, c[0]);
    TailPayload(d1, c[1]);
    TailPayload(d2, c[2]);
  }

  lemma DecodeChar4(c: seq<byte>, a: uint32)
    requires WellFormedChar(c) && |c| == 4
    ensures RunDecoder(Decoder(ACCEPT, a), c).codep == CharValue(c)
  {
    var d1 := Decode(Decoder(ACCEPT, a), c[0]);
    var d2 := Decode(d1, c[1]);
    var d3 := Decode(d2, c[2]);
    Decoder4(Decoder(ACCEPT, a), c);
    LeadPayload(a, c[0]);
    TailPayload(d1, c[1]);
    TailPayload(d2, c[2]);
    TailPayload(d3, c[3]);
  }

  /** Every well-formed character takes the automaton from ACCEPT to ACCEPT. */
  lemma CharAccepts(c: seq<byte>)
    requires WellFormedChar(c)
    ensures Run(ACCEPT, c) == ACCEPT
  {
    CharLength(c);
    CharRun(c);
  }

  /** The decoder at the start of a buffer; the accumulator starts at zero. */
  function Initial(): Decoder {
    Decoder(ACCEPT, 0)
  }

  /**
   * When the byte after `t` completes a well-formed sequence, the
   * accumulator holds the value of the character that byte completes.
   */
  lemma AcceptedValue(t: seq<byte>, b: byte)
    requires WellFormed(t + [b])
    ensures WellFormedChar(t[LongestWellFormed(t)..] + [b])
    ensures RunDecoder(Initial(), t + [b]) ==
              Decoder(ACCEPT, CharValue(t[LongestWellFormed(t)..] + [b]))
  {
    LastChar(t, b);
    var k := LongestWellFormed(t);
    var w := t[..k];
    var p := t[k..] + [b];
    RunDecoderAppend(Initial(), w, p);
    var dw := RunDecoder(Initial(), w);
    RunDecoderState(Initial(), w);
    AcceptIffWellFormed(w);
    DecodeChar(p, dw.codep);
  }
}
