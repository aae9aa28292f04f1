/**
 * What `utf8_stripinval` keeps. The loop runs the automaton over the string
 * and, whenever it lands on ACCEPT, keeps the run of bytes since the last
 * cut (one character); whenever it lands on REJECT it drops that run,
 * including the byte that caused the rejection, and starts afresh from
 * ACCEPT. The string is thereby cut into kept characters and dropped runs,
 * followed by an unfinished run.
 */
module Utf8Strip {
  import opened Rfc3629
  import opened Utf8Dfa
  import opened Utf8DfaCorrect

  /** A run of bytes the loop keeps (a character) or drops (a rejected run). */
  datatype Piece = Keep(bytes: seq<byte>) | Drop(bytes: seq<byte>)

  /** The pieces cut so far and the unfinished run after them. */
  datatype Cut = Cut(pieces: seq<Piece>, pending: seq<byte>)

  /** The bytes of the pieces, in order. */
  function Flatten(ps: seq<Piece>): seq<byte>
    decreases |ps|
  {
    if ps == [] then [] else Flatten(ps[..|ps| - 1]) + ps[|ps| - 1].bytes
  }

  /** The bytes of the kept pieces, in order: what is left after stripping. */
  function Kept(ps: seq<Piece>): seq<byte>
    decreases |ps|
  {
    if ps == [] then []
    else Kept(ps[..|ps| - 1]) + (if ps[|ps| - 1].Keep? then ps[|ps| - 1].bytes else [])
  }

  /** Some run was dropped: the loop's `move` flag. */
  predicate Dropped(ps: seq<Piece>)
    decreases |ps|
  {
    ps != [] && (Dropped(ps[..|ps| - 1]) || ps[|ps| - 1].Drop?)
  }

  /** The cut of `s` the loop has made after reading all of `s`. */
  function StripCut(s: seq<byte>): Cut
    decreases |s|
  {
    if s == [] then Cut([], [])
    else
      var c := StripCut(s[..|s| - 1]);
      var p := c.pending + [s[|s| - 1]];
      if Run(ACCEPT, p) == ACCEPT then Cut(c.pieces + [Keep(p)], [])
      else if Run(ACCEPT, p) == REJECT then Cut(c.pieces + [Drop(p)], [])
      else Cut(c.pieces, p)
  }

  /**
   * A kept piece is one character; a dropped piece is a shortest run the
   * automaton rejects, so it ends with the byte that caused the rejection.
   */
  predicate ValidPiece(q: Piece) {
    match q
    case Keep(c) => WellFormedChar(c)
    case Drop(r) => r != [] && Run(ACCEPT, r) == REJECT && Run(ACCEPT, r[..|r| - 1]) != REJECT
  }

  /** The unfinished run is a character cut short, possibly empty. */
  predicate Partial(p: seq<byte>) {
    (p == [] || |p| < SequenceLength(p[0])) &&
    Run(ACCEPT, p) != REJECT &&
    (p != [] ==> Run(ACCEPT, p) != ACCEPT)
  }

  /** Run without restarts, the automaton rejects exactly once a piece is dropped. */
  predicate Unrestarted(ps: seq<Piece>) {
    Run(ACCEPT, Flatten(ps)) == if Dropped(ps) then REJECT else ACCEPT
  }

  /** Every piece is valid. */
  predicate AllValid(ps: seq<Piece>)
    decreases |ps|
  {
    ps == [] || (AllValid(ps[..|ps| - 1]) && ValidPiece(ps[|ps| - 1]))
  }

  lemma AllValidSnoc(ps: seq<Piece>, q: Piece)
    ensures AllValid(ps + [q]) <==> AllValid(ps) && ValidPiece(q)
  {
    PiecesSnoc(ps, q);
  }

  /** What the pieces and the unfinished run are. */
  ghost predicate CutOf(s: seq<byte>, c: Cut) {
    Flatten(c.pieces) + c.pending == s &&
    AllValid(c.pieces) &&
    Partial(c.pending) &&
    Unrestarted(c.pieces)
  }

  /** One more byte after a character cut short. */
  lemma PartialStep(pending: seq<byte>, b: byte)
    requires pending == [] || |pending| < SequenceLength(pending[0])
    ensures var p := pending + [b];
      (Run(ACCEPT, p) == ACCEPT ==> WellFormedChar(p)) &&
      (Run(ACCEPT, p) != ACCEPT && Run(ACCEPT, p) != REJECT ==> |p| < SequenceLength(p[0]))
  {
    var p := pending + [b];
    var n := SequenceLength(p[0]);
    assert pending != [] ==> p[0] == pending[0];
    AcceptIffWellFormed(p);
    RejectIffNotViable(p);
    if Run(ACCEPT, p) == ACCEPT {
      assert p[..n] == p;
    } else if Run(ACCEPT, p) != REJECT && n <= |p| {
      var t :| WellFormed(p + t);
      assert (p + t)[0] == p[0];
      assert (p + t)[..n] == p[..n];
      assert p[..n] == p;
      CharAccepts(p);
    }
  }

  lemma PiecesSnoc(ps: seq<Piece>, q: Piece)
    ensures (ps + [q])[..|ps|] == ps && (ps + [q])[|ps|] == q
    ensures forall i :: 0 <= i < |ps| ==> (ps + [q])[i] == ps[i]
    ensures Flatten(ps + [q]) == Flatten(ps) + q.bytes
    ensures Kept(ps + [q]) == Kept(ps) + (if q.Keep? then q.bytes else [])
    ensures Dropped(ps + [q]) <==> Dropped(ps) || q.Drop?
  {
    assert (ps + [q])[..|ps|] == ps;
  }

  /** The loop keeps the cut as described, byte after byte. */
  lemma {:induction false} StripCutIsCut(s: seq<byte>)
    ensures CutOf(s, StripCut(s))
    decreases |s|
  {
    if s != [] {
      var t, b := s[..|s| - 1], s[|s| - 1];
      assert s == t + [b];
      StripCutIsCut(t);
      var c := StripCut(t);
      var p := c.pending + [b];
      EndsPiece(c.pending, b);
      if Run(ACCEPT, p) == ACCEPT {
        CutStep(t, b, c, Keep(p));
      } else if Run(ACCEPT, p) == REJECT {
        CutStep(t, b, c, Drop(p));
      } else {
        PendingStep(t, b, c);
      }
    }
  }

  /** A byte that ends the unfinished run cuts a new piece. */
  lemma CutStep(t: seq<byte>, b: byte, c: Cut, q: Piece)
    requires CutOf(t, c)
    requires q.bytes == c.pending + [b] && ValidPiece(q)
    requires Run(ACCEPT, q.bytes) == if q.Keep? then ACCEPT else REJECT
    ensures CutOf(t + [b], Cut(c.pieces + [q], []))
  {
    PiecesSnoc(c.pieces, q);
    AllValidSnoc(c.pieces, q);
    UnrestartedSnoc(c.pieces, q);
    AppendAssoc(Flatten(c.pieces), c.pending, [b]);
    assert Run(ACCEPT, []) == ACCEPT;
  }

  /** The run a byte completes or rejects is a valid piece. */
  lemma EndsPiece(pending: seq<byte>, b: byte)
    requires Partial(pending)
    ensures var p := pending + [b];
      (Run(ACCEPT, p) == ACCEPT ==> ValidPiece(Keep(p))) &&
      (Run(ACCEPT, p) == REJECT ==> ValidPiece(Drop(p)))
  {
    PartialStep(pending, b);
    assert (pending + [b])[..|pending|] == pending;
  }

  lemma UnrestartedSnoc(ps: seq<Piece>, q: Piece)
    requires Unrestarted(ps)
    requires Run(ACCEPT, q.bytes) == if q.Keep? then ACCEPT else REJECT
    ensures Unrestarted(ps + [q])
  {
    PiecesSnoc(ps, q);
    RunAppend(ACCEPT, Flatten(ps), q.bytes);
    if Dropped(ps) {
      RejectAbsorbing(q.bytes);
    }
  }

  /** A byte that neither completes nor rejects the unfinished run extends it. */
  lemma PendingStep(t: seq<byte>, b: byte, c: Cut)
    requires CutOf(t, c)
    requires var p := c.pending + [b]; Run(ACCEPT, p) != ACCEPT && Run(ACCEPT, p) != REJECT
    ensures CutOf(t + [b], Cut(c.pieces, c.pending + [b]))
  {
    PartialStep(c.pending, b);
    AppendAssoc(Flatten(c.pieces), c.pending, [b]);
  }

  // ---------------------------------------------------------------------
  // What is left after stripping.

  /**
   * The string `utf8_stripinval` leaves: the kept characters when some run
   * was dropped (they are moved to the front and a zero ends them), and the
   * untouched string otherwise.
   */
  function Stripped(s: seq<byte>): seq<byte> {
    var c := StripCut(s);
    if Dropped(c.pieces) then Kept(c.pieces) else s
  }

  /** Kept characters in order make a well-formed sequence. */
  lemma {:induction false} KeptWellFormed(ps: seq<Piece>)
    requires AllValid(ps)
    ensures WellFormed(Kept(ps))
    decreases |ps|
  {
    if ps != [] {
      var init, q := ps[..|ps| - 1], ps[|ps| - 1];
      KeptWellFormed(init);
      if q.Keep? {
        WellFormedSnoc(Kept(init), q.bytes);
      } else {
        assert Kept(ps) == Kept(init) + [] == Kept(init);
      }
    }
  }

  /** Without a dropped run, every byte is kept. */
  lemma {:induction false} KeptAll(ps: seq<Piece>)
    requires !Dropped(ps)
    ensures Kept(ps) == Flatten(ps)
    decreases |ps|
  {
    if ps != [] {
      var init, q := ps[..|ps| - 1], ps[|ps| - 1];
      PiecesSnoc(init, q);
      assert ps == init + [q];
      KeptAll(init);
    }
  }

  /** The kept bytes are some of the bytes of the pieces, never more. */
  lemma {:induction false} KeptWithin(ps: seq<Piece>)
    ensures |Kept(ps)| <= |Flatten(ps)|
    ensures multiset(Kept(ps)) <= multiset(Flatten(ps))
    decreases |ps|
  {
    if ps != [] {
      KeptWithin(ps[..|ps| - 1]);
    }
  }

  /**
   * A well-formed string has nothing dropped and nothing left unfinished;
   * an ill-formed one has a dropped run or a character cut short at its end.
   */
  lemma CutOfWellFormed(s: seq<byte>)
    ensures var c := StripCut(s);
      WellFormed(s) <==> !Dropped(c.pieces) && c.pending == []
  {
    var c := StripCut(s);
    StripCutIsCut(s);
    var f := Flatten(c.pieces);
    RunAppend(ACCEPT, f, c.pending);
    RejectAbsorbing(c.pending);
    AcceptIffWellFormed(s);
    assert c.pending == [] ==> s == f by {
      if c.pending == [] {
        assert f + [] == f;
      }
    }
  }

  /**
   * `utf8_stripinval` leaves a well-formed string alone, and when it removes
   * anything the string it leaves is well-formed and no longer.
   */
  lemma StrippedWellFormed(s: seq<byte>)
    ensures WellFormed(s) ==> Stripped(s) == s
    ensures Dropped(StripCut(s).pieces) ==> WellFormed(Stripped(s)) && |Stripped(s)| < |s|
    ensures multiset(Stripped(s)) <= multiset(s)
  {
    var c := StripCut(s);
    StripCutIsCut(s);
    CutOfWellFormed(s);
    KeptWithin(c.pieces);
    if Dropped(c.pieces) {
      KeptWellFormed(c.pieces);
      DroppedShrinks(c.pieces);
    }
  }

  /** A dropped run is never empty, so dropping shortens. */
  lemma {:induction false} DroppedShrinks(ps: seq<Piece>)
    requires AllValid(ps)
    requires Dropped(ps)
    ensures |Kept(ps)| < |Flatten(ps)|
    decreases |ps|
  {
    var init, q := ps[..|ps| - 1], ps[|ps| - 1];
    KeptWithin(init);
    if Dropped(init) {
      DroppedShrinks(init);
    } else {
      assert q.Drop?;
    }
  }

  /** Stripping twice leaves what stripping once left. */
  lemma StripIdempotent(s: seq<byte>)
    ensures Stripped(Stripped(s)) == Stripped(s)
  {
    var c := StripCut(s);
    if Dropped(c.pieces) {
      StrippedWellFormed(s);
      StrippedWellFormed(Stripped(s));
    }
  }

  /** The example of a run rejected by its second byte: E0 41 42 leaves "B". */
  lemma StripDropsRejectingByte()
    ensures Stripped([0xE0, 0x41, 0x42]) == [0x42]
  {
    var s: seq<byte> := [0xE0, 0x41, 0x42];
    var ps := [Drop([0xE0, 0x41]), Keep([0x42])];
    assert s[..2] == [0xE0, 0x41];
    CutRejected();
    assert Run(ACCEPT, [0x42]) == ACCEPT;
    assert StripCut(s) == Cut(ps, []);
    assert ps[..1] == [Drop([0xE0, 0x41])];
    assert Kept(ps[..1]) == [];
  }

  /** E0 opens a three-byte character; 41 cannot continue it, and both go. */
  lemma CutRejected()
    ensures StripCut([0xE0, 0x41]) == Cut([Drop([0xE0, 0x41])], [])
  {
    var s: seq<byte> := [0xE0, 0x41];
    assert s[..1] == [0xE0] && s[..1][..0] == [];
    assert Run(ACCEPT, [0xE0]) == 48;
    assert StripCut([0xE0]) == Cut([], [0xE0]);
    assert [0xE0, 0x41][..1] == [0xE0];
    assert Run(ACCEPT, [0xE0, 0x41]) == REJECT;
    var c1 := StripCut([0xE0]);
    assert c1.pending + [0x41] == [0xE0, 0x41];
    assert [] + [Drop([0xE0, 0x41])] == [Drop([0xE0, 0x41])];
  }

  // ---------------------------------------------------------------------
  // A character cut short at the end of the string.

  /**
   * When nothing else is dropped, `utf8_stripinval` leaves a character cut
   * short at the end of the string in place: "A" followed by a lone E0 stays
   * as it is and is not well-formed.
   */
  lemma StripKeepsTruncatedTail()
    ensures Stripped([0x41, 0xE0]) == [0x41, 0xE0]
    ensures !WellFormed([0x41, 0xE0])
  {
    var s: seq<byte> := [0x41, 0xE0];
    assert s[..1] == [0x41] && s[..1][..0] == [];
    assert Run(ACCEPT, [0x41]) == ACCEPT;
    assert Run(ACCEPT, [0xE0]) == 48;
    assert StripCut([0x41]) == Cut([Keep([0x41])], []);
    assert [] + [0xE0] == [0xE0];
    assert StripCut(s) == Cut([Keep([0x41])], [0xE0]);
    assert !Dropped([Keep([0x41])]);
    CutOfWellFormed(s);
  }

  /**
   * Stripping as intended: a character cut short at the end goes as well,
   * so what is left is always well-formed.
   */
  function StrippedCorrected(s: seq<byte>): seq<byte> {
    var c := StripCut(s);
    if Dropped(c.pieces) || c.pending != [] then Kept(c.pieces) else s
  }

  /**
   * The corrected stripping always leaves a well-formed string, changes a
   * string exactly when it is ill-formed, and is idempotent.
   */
  lemma StrippedCorrectedWellFormed(s: seq<byte>)
    ensures WellFormed(StrippedCorrected(s))
    ensures StrippedCorrected(s) == s <==> WellFormed(s)
    ensures StrippedCorrected(StrippedCorrected(s)) == StrippedCorrected(s)
    ensures multiset(StrippedCorrected(s)) <= multiset(s)
  {
    var c := StripCut(s);
    StripCutIsCut(s);
    CutOfWellFormed(s);
    KeptWithin(c.pieces);
    KeptWellFormed(c.pieces);
    var r := StrippedCorrected(s);
    if Dropped(c.pieces) {
      DroppedShrinks(c.pieces);
    } else if c.pending != [] {
      KeptAll(c.pieces);
    }
    CutOfWellFormed(r);
  }

  /** Stripping a string without zero bytes leaves no zero byte. */
  lemma KeptNoZero(s: seq<byte>)
    requires 0 !in s
    ensures 0 !in Kept(StripCut(s).pieces)
  {
    var c := StripCut(s);
    StripCutIsCut(s);
    KeptWithin(c.pieces);
    assert multiset(s) == multiset(Flatten(c.pieces)) + multiset(c.pending);
    assert 0 !in multiset(Kept(c.pieces));
  }

  lemma RunSnoc(p: seq<byte>, b: byte)
    ensures Run(ACCEPT, p + [b]) == Next(Run(ACCEPT, p), b)
  {
    assert (p + [b])[..|p|] == p;
  }
}
