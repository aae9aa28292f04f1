/**
 * `utf8_stripinval` and `utf8_nstripinval`: remove the runs the decoder
 * rejects by moving every accepted character down over them, then end the
 * string with a zero if anything was removed. Proved against the cut of
 * Utf8Strip: the loop's variables are the sizes of that cut.
 */
module Utf8StripInval {
  import opened Rfc3629
  import opened Utf8Dfa
  import opened Utf8DfaCorrect
  import opened Utf8Scan
  import opened Utf8Buffer
  import opened Utf8Strip

  /**
   * The loop after cutting `c` from the bytes read so far into `a`: the
   * pieces take `cur` bytes, `l - 1` bytes are pending, the kept characters
   * fill `a[..dst]`, `a` is untouched from `dst` on, `move` records a drop
   * and `q` is the decoder state over the pending bytes.
   */
  ghost predicate Progress(s: seq<byte>, a: seq<byte>, c: Cut, l: nat, cur: nat, dst: nat,
                           move: bool, q: State) {
    |a| == |s| &&
    cur == |Flatten(c.pieces)| && l == |c.pending| + 1 && dst == |Kept(c.pieces)| &&
    move == Dropped(c.pieces) && q == Run(ACCEPT, c.pending) &&
    dst <= |a| && a[..dst] == Kept(c.pieces) && a[dst..] == s[dst..]
  }

  /** Before the first byte. */
  lemma ProgressStart(s: seq<byte>)
    ensures StripCut(s[..0]) == Cut([], []) && CutOf(s[..0], Cut([], []))
    ensures Progress(s, s, Cut([], []), 1, 0, 0, false, ACCEPT)
  {
    assert s[..0] == [];
    StripCutIsCut([]);
  }

  /** The sizes of a cut of the first `i` bytes. */
  lemma CutSizes(s: seq<byte>, i: nat, c: Cut)
    requires i <= |s| && CutOf(s[..i], c)
    ensures |Flatten(c.pieces)| + |c.pending| == i
    ensures |Kept(c.pieces)| <= |Flatten(c.pieces)|
    ensures Dropped(c.pieces) ==> |Kept(c.pieces)| < |Flatten(c.pieces)|
    ensures !Dropped(c.pieces) ==> Kept(c.pieces) == s[..|Flatten(c.pieces)|]
  {
    KeptWithin(c.pieces);
    if Dropped(c.pieces) {
      DroppedShrinks(c.pieces);
    } else {
      KeptAll(c.pieces);
      assert s[..i][..|Flatten(c.pieces)|] == s[..|Flatten(c.pieces)|];
    }
  }

  /** Facts about the loop variables. */
  lemma ProgressBounds(s: seq<byte>, a: seq<byte>, i: nat, c: Cut, l: nat, cur: nat, dst: nat,
                       move: bool, q: State)
    requires i <= |s| && CutOf(s[..i], c) && Progress(s, a, c, l, cur, dst, move, q)
    ensures cur + l == i + 1 && dst <= cur
    ensures i < |s| ==> a[cur..cur + l] == s[cur..cur + l]
    ensures !move ==> dst == cur
    ensures move ==> dst < cur
  {
    CutSizes(s, i, c);
  }

  /** Nothing dropped yet: nothing was written. */
  lemma ProgressUnmoved(s: seq<byte>, a: seq<byte>, i: nat, c: Cut, l: nat, cur: nat, dst: nat,
                        q: State)
    requires i <= |s| && CutOf(s[..i], c) && Progress(s, a, c, l, cur, dst, false, q)
    ensures a == s
  {
    CutSizes(s, i, c);
    assert a == a[..dst] + a[dst..];
  }

  lemma Split3(a: seq<byte>, i: nat, j: nat)
    requires i <= j <= |a|
    ensures a == a[..i] + a[i..j] + a[j..]
  {
  }

  /**
   * What `memmove(&s[dst], &s[cur], l)` with `dst <= cur` leaves in `a`: the
   * `l` bytes at `cur` now also stand at `dst`, and nothing else changes.
   */
  function Moved(a: seq<byte>, dst: nat, cur: nat, l: nat): (m: seq<byte>)
    requires dst <= cur && cur + l <= |a|
    ensures |m| == |a|
  {
    a[..dst] + a[cur..cur + l] + a[dst + l..]
  }

  /** A sequence that agrees with `Moved` at every index is `Moved`. */
  lemma MovedAt(a: seq<byte>, b: seq<byte>, dst: nat, cur: nat, l: nat)
    requires dst <= cur && cur + l <= |a| == |b|
    requires forall k {:trigger b[k]} :: 0 <= k < |b| ==>
               b[k] == if dst <= k < dst + l then a[k - dst + cur] else a[k]
    ensures b == Moved(a, dst, cur, l)
  {
    var x, y, z := a[..dst], a[cur..cur + l], a[dst + l..];
    assert Moved(a, dst, cur, l) == x + y + z;
    assert b[..dst] == x;
    assert b[dst..dst + l] == y;
    assert b[dst + l..] == z;
    Split3(b, dst, dst + l);
  }

  /** `memmove(&s[dst], &s[cur], l)` with `dst <= cur`. */
  method MoveDown(buf: array<byte>, dst: nat, cur: nat, l: nat)
    requires dst <= cur && cur + l <= buf.Length
    modifies buf
    ensures buf[..] == Moved(old(buf[..]), dst, cur, l)
  {
    ghost var a := buf[..];
    forall k | 0 <= k < l {
      buf[dst + k] := buf[cur + k];
    }
    MovedAt(a, buf[..], dst, cur, l);
  }

  /** The cut one byte further. */
  lemma CutOneMore(s: seq<byte>, i: nat, c: Cut)
    requires i < |s| && c == StripCut(s[..i])
    ensures var p := c.pending + [s[i]];
      StripCut(s[..i + 1]) ==
        if Run(ACCEPT, p) == ACCEPT then Cut(c.pieces + [Keep(p)], [])
        else if Run(ACCEPT, p) == REJECT then Cut(c.pieces + [Drop(p)], [])
        else Cut(c.pieces, p)
    ensures CutOf(s[..i + 1], StripCut(s[..i + 1]))
  {
    assert s[..i + 1][..i] == s[..i];
    StripCutIsCut(s[..i + 1]);
  }

  /** The pending bytes and the byte read are `s[cur..i + 1]`. */
  lemma PendingBytes(s: seq<byte>, i: nat, c: Cut)
    requires i < |s| && CutOf(s[..i], c)
    ensures |Flatten(c.pieces)| <= i
    ensures c.pending + [s[i]] == s[|Flatten(c.pieces)|..i + 1]
    ensures Run(ACCEPT, c.pending + [s[i]]) == Next(Run(ACCEPT, c.pending), s[i])
  {
    var f := |Flatten(c.pieces)|;
    assert |s[..i]| == f + |c.pending|;
    assert c.pending == s[..i][f..];
    SliceSnoc(s, f, i);
    RunSnoc(c.pending, s[i]);
  }

  lemma SliceSnoc(s: seq<byte>, f: nat, i: nat)
    requires f <= i < |s|
    ensures s[..i][f..] + [s[i]] == s[f..i + 1]
  {
  }

  /** A byte that completes a character: it is moved down with its run. */
  lemma KeepStep(s: seq<byte>, a: seq<byte>, a': seq<byte>, i: nat, c: Cut, l: nat, cur: nat,
                 dst: nat, move: bool, q: State, l': nat, cur': nat, dst': nat)
    requires i < |s| && CutOf(s[..i], c) && Progress(s, a, c, l, cur, dst, move, q)
    requires Next(q, s[i]) == ACCEPT
    requires cur + l == i + 1 && dst <= cur
    requires a' == a[..dst] + s[cur..cur + l] + a[dst + l..]
    requires l' == 1 && cur' == cur + l && dst' == dst + l
    ensures Progress(s, a', Cut(c.pieces + [Keep(c.pending + [s[i]])], []), l', cur', dst',
                     move, ACCEPT)
  {
    var p := c.pending + [s[i]];
    PendingBytes(s, i, c);
    PiecesSnoc(c.pieces, Keep(p));
    assert a'[..dst + l] == Kept(c.pieces) + p;
    assert a'[dst + l..] == s[dst + l..];
  }

  /** A byte that rejects the run: the run is dropped, nothing is written. */
  lemma DropStep(s: seq<byte>, a: seq<byte>, i: nat, c: Cut, l: nat, cur: nat, dst: nat,
                 move: bool, q: State)
    requires i < |s| && CutOf(s[..i], c) && Progress(s, a, c, l, cur, dst, move, q)
    requires Next(q, s[i]) == REJECT
    ensures Progress(s, a, Cut(c.pieces + [Drop(c.pending + [s[i]])], []), 1, cur + l, dst,
                     true, ACCEPT)
  {
    var p := c.pending + [s[i]];
    PendingBytes(s, i, c);
    PiecesSnoc(c.pieces, Drop(p));
    assert Kept(c.pieces + [Drop(p)]) == Kept(c.pieces) + [] == Kept(c.pieces);
  }

  /** Any other byte joins the pending run. */
  lemma PendStep(s: seq<byte>, a: seq<byte>, i: nat, c: Cut, l: nat, cur: nat, dst: nat,
                 move: bool, q: State)
    requires i < |s| && CutOf(s[..i], c) && Progress(s, a, c, l, cur, dst, move, q)
    ensures Progress(s, a, Cut(c.pieces, c.pending + [s[i]]), l + 1, cur, dst, move, Next(q, s[i]))
  {
    PendingBytes(s, i, c);
  }

  /** The loop's state after reading `i` bytes of `s`: `c` is their cut. */
  ghost predicate Loop(s: seq<byte>, a: seq<byte>, i: nat, c: Cut, l: nat, cur: nat, dst: nat,
                       move: bool, q: State) {
    i <= |s| && c == StripCut(s[..i]) && CutOf(s[..i], c) &&
    Progress(s, a, c, l, cur, dst, move, q)
  }

  lemma LoopStart(s: seq<byte>)
    ensures Loop(s, s, 0, Cut([], []), 1, 0, 0, false, ACCEPT)
  {
    ProgressStart(s);
  }

  /** What the loop body relies on. */
  lemma LoopBounds(s: seq<byte>, a: seq<byte>, i: nat, c: Cut, l: nat, cur: nat, dst: nat,
                   move: bool, q: State)
    requires Loop(s, a, i, c, l, cur, dst, move, q)
    ensures cur + l == i + 1 && dst <= cur
    ensures i < |s| ==> a[i] == s[i]
    ensures move ==> dst < cur
  {
    ProgressBounds(s, a, i, c, l, cur, dst, move, q);
    if i < |s| {
      assert a[dst..][i - dst] == s[dst..][i - dst];
    }
  }

  /**
   * A byte on which the decoder accepts: the character is kept, moved down
   * to `dst` when something was dropped before it.
   */
  lemma LoopKeep(s: seq<byte>, a: seq<byte>, a': seq<byte>, i: nat, c: Cut, l: nat, cur: nat,
                 dst: nat, move: bool, q: State, l': nat, cur': nat, dst': nat)
    returns (c': Cut)
    requires Loop(s, a, i, c, l, cur, dst, move, q) && i < |s| && Next(q, s[i]) == ACCEPT
    requires dst <= cur && cur + l <= |a|
    requires a' == if move then Moved(a, dst, cur, l) else a
    requires l' == 1 && cur' == cur + l && dst' == dst + l
    ensures Loop(s, a', i + 1, c', l', cur', dst', move, ACCEPT)
  {
    ProgressBounds(s, a, i, c, l, cur, dst, move, q);
    CutOneMore(s, i, c);
    PendingBytes(s, i, c);
    if move {
      MovedRun(a, s, dst, cur, l);
    } else {
      Split3(a, dst, dst + l);
    }
    KeepStep(s, a, a', i, c, l, cur, dst, move, q, l', cur', dst');
    c' := Cut(c.pieces + [Keep(c.pending + [s[i]])], []);
  }

  /** The run moved is the run of the string, still unwritten at `cur`. */
  lemma MovedRun(a: seq<byte>, s: seq<byte>, dst: nat, cur: nat, l: nat)
    requires dst <= cur && cur + l <= |a| && cur + l <= |s| && a[cur..cur + l] == s[cur..cur + l]
    ensures Moved(a, dst, cur, l) == a[..dst] + s[cur..cur + l] + a[dst + l..]
  {
  }

  /** A byte on which the decoder rejects: the run is dropped. */
  lemma LoopDrop(s: seq<byte>, a: seq<byte>, i: nat, c: Cut, l: nat, cur: nat, dst: nat,
                 move: bool, q: State) returns (c': Cut)
    requires Loop(s, a, i, c, l, cur, dst, move, q) && i < |s| && Next(q, s[i]) == REJECT
    ensures Loop(s, a, i + 1, c', 1, cur + l, dst, true, ACCEPT)
  {
    CutOneMore(s, i, c);
    PendingBytes(s, i, c);
    DropStep(s, a, i, c, l, cur, dst, move, q);
    c' := Cut(c.pieces + [Drop(c.pending + [s[i]])], []);
  }

  /** Any other byte: the run goes on. */
  lemma LoopPend(s: seq<byte>, a: seq<byte>, i: nat, c: Cut, l: nat, cur: nat, dst: nat,
                 move: bool, q: State) returns (c': Cut)
    requires Loop(s, a, i, c, l, cur, dst, move, q) && i < |s|
    requires Next(q, s[i]) != ACCEPT && Next(q, s[i]) != REJECT
    ensures Loop(s, a, i + 1, c', l + 1, cur, dst, move, Next(q, s[i]))
  {
    CutOneMore(s, i, c);
    PendingBytes(s, i, c);
    PendStep(s, a, i, c, l, cur, dst, move, q);
    c' := Cut(c.pieces, c.pending + [s[i]]);
  }

  /** The loop stops at the terminator: its cut is the cut of the string. */
  lemma LoopText(s: seq<byte>, a: seq<byte>, i: nat, c: Cut, l: nat, cur: nat, dst: nat,
                 move: bool, q: State)
    requires 0 in s && i <= |Text(s)| && Loop(s, a, i, c, l, cur, dst, move, q)
    requires i < |a| && a[i] == 0
    ensures i == |Text(s)| && s[..i] == Text(s) && 0 !in s[..i]
  {
    LoopBounds(s, a, i, c, l, cur, dst, move, q);
  }

  /** What the loop's variables say about the cut. */
  lemma LoopCut(s: seq<byte>, a: seq<byte>, i: nat, c: Cut, l: nat, cur: nat, dst: nat,
                move: bool, q: State)
    requires Loop(s, a, i, c, l, cur, dst, move, q)
    ensures c == StripCut(s[..i])
    ensures move == Dropped(c.pieces) && (l == 1 <==> c.pending == [])
  {
  }

  /**
   * After the scan, when something was dropped or a character is left
   * unfinished: a zero written at `dst` ends the kept characters.
   */
  lemma LoopFinishWrite(s: seq<byte>, a: seq<byte>, i: nat, c: Cut, l: nat, cur: nat, dst: nat,
                        move: bool, q: State)
    requires Loop(s, a, i, c, l, cur, dst, move, q) && 0 !in s[..i]
    requires move || l != 1
    ensures dst < i && dst == |Kept(c.pieces)|
    ensures a[dst := 0] == Kept(c.pieces) + [0] + s[|Kept(c.pieces)| + 1..]
    ensures Text(a[dst := 0]) == Kept(c.pieces)
  {
    ProgressBounds(s, a, i, c, l, cur, dst, move, q);
    KeptNoZero(s[..i]);
    EndString(s, a, dst, Kept(c.pieces));
  }

  /** A zero written after a prefix `w` without zeros ends the string there. */
  lemma EndString(s: seq<byte>, a: seq<byte>, k: nat, w: seq<byte>)
    requires k < |a| == |s| && a[..k] == w && a[k..] == s[k..] && 0 !in w
    ensures a[k := 0] == w + [0] + s[k + 1..]
    ensures Text(a[k := 0]) == w
  {
    assert a[k := 0] == w + [0] + s[k + 1..];
    TextOfString(w, s[k + 1..]);
  }

  /** After the whole string, when nothing was dropped: the string is as it was. */
  lemma LoopFinishUnmoved(s: seq<byte>, a: seq<byte>, i: nat, c: Cut, l: nat, cur: nat, dst: nat,
                          q: State)
    requires i <= |s| && Loop(s, a, i, c, l, cur, dst, false, q)
    ensures a == s
  {
    ProgressUnmoved(s, a, i, c, l, cur, dst, q);
  }

  /**
   * What the loop over a whole string leaves: the cut of the string; `move`
   * says whether a run was dropped and `l != 1` whether a character is left
   * unfinished; the string is well-formed exactly when neither happened.
   * Without `move` the buffer is untouched; after either, a zero written at
   * `dst` ends the kept characters.
   */
  lemma LoopEnd(s: seq<byte>, a: seq<byte>, i: nat, c: Cut, l: nat, cur: nat, dst: nat,
                move: bool, q: State)
    requires 0 in s && i <= |Text(s)| && i < |a| && a[i] == 0
    requires Loop(s, a, i, c, l, cur, dst, move, q)
    ensures c == StripCut(Text(s))
    ensures move == Dropped(c.pieces) && (l != 1 <==> c.pending != [])
    ensures WellFormed(Kept(c.pieces))
    ensures WellFormed(Text(s)) <==> !move && l == 1
    ensures !move ==> a == s
    ensures move || l != 1 ==>
              dst < |a| && |Kept(c.pieces)| < |Text(s)| &&
              a[dst := 0] == Kept(c.pieces) + [0] + s[|Kept(c.pieces)| + 1..] &&
              Text(a[dst := 0]) == Kept(c.pieces)
  {
    LoopText(s, a, i, c, l, cur, dst, move, q);
    LoopCut(s, a, i, c, l, cur, dst, move, q);
    KeptWellFormed(c.pieces);
    CutOfWellFormed(s[..i]);
    if move || l != 1 {
      LoopFinishWrite(s, a, i, c, l, cur, dst, move, q);
    }
    if !move {
      LoopFinishUnmoved(s, a, i, c, l, cur, dst, q);
    }
  }
  /** What `utf8_nstripinval` leaves, from the state its loop ends in. */
  lemma NStripFinish(s: seq<byte>, len: nat, a: seq<byte>, i: nat, c: Cut, l: nat, cur: nat,
                     dst: nat, move: bool, q: State)
    requires Readable(s, len) && i <= len && i <= |s| && 0 !in s[..i]
    requires i == len || (i < |a| && a[i] == 0)
    requires Loop(s, a, i, c, l, cur, dst, move, q)
    ensures move ==> dst < |a|
    ensures c == StripCut(Scanned(s, len))
    ensures var t := Scanned(s, len);
      var a' := if move then a[dst := 0] else a;
      move == Dropped(c.pieces) &&
      (move ==>
         |Kept(c.pieces)| < |t| &&
         a' == Kept(c.pieces) + [0] + s[|Kept(c.pieces)| + 1..]) &&
      (!move ==> a' == s)
  {
    LoopBounds(s, a, i, c, l, cur, dst, move, q);
    ScanExit(s, len, i);
    LoopCut(s, a, i, c, l, cur, dst, move, q);
    if move {
      LoopFinishWrite(s, a, i, c, l, cur, dst, move, q);
    } else {
      LoopFinishUnmoved(s, a, i, c, l, cur, dst, q);
    }
  }

  /**
   * One pass of the loop body of `utf8_stripinval` on byte `i`, before the
   * loop's `i++, l++`: decode it; on ACCEPT move the character down if
   * anything was dropped before; on REJECT drop the run and restart the
   * decoder.
   */
  method Step(buf: array<byte>, ghost s: seq<byte>, ghost a: seq<byte>, i: nat, ghost c: Cut,
              d: Decoder, l: nat, cur: nat, dst: nat, move: bool)
    returns (ghost a': seq<byte>, ghost c': Cut, d': Decoder, l': nat, cur': nat, dst': nat,
             move': bool)
    requires i < |s| && a == buf[..] && Loop(s, a, i, c, l, cur, dst, move, d.state)
    modifies buf
    ensures a' == buf[..] && s[i] == old(buf[i])
    ensures Loop(s, a', i + 1, c', l', cur', dst', move', d'.state)
  {
    LoopBounds(s, a, i, c, l, cur, dst, move, d.state);
    d' := Decode(d, buf[i]);
    if d'.state == ACCEPT {
      a', c', l', cur', dst', move' := KeepChar(buf, s, a, i, c, l, cur, dst, move, d.state);
    } else {
      a' := a;
      c', d', l', cur', dst', move' := PassByte(s, a, i, c, d.state, d', l, cur, dst, move);
    }
  }

  /**
   * The ACCEPT branch of the loop body: the character just completed, the
   * `l` bytes at `cur`, is moved down to `dst` if anything was dropped before
   * it; `dst` and `cur` pass it and `l` restarts (`l = 0`, then the loop's
   * `l++`).
   */
  method KeepChar(buf: array<byte>, ghost s: seq<byte>, ghost a: seq<byte>, i: nat, ghost c: Cut,
                  l: nat, cur: nat, dst: nat, move: bool, ghost q: State)
    returns (ghost a': seq<byte>, ghost c': Cut, l': nat, cur': nat, dst': nat, move': bool)
    requires i < |s| && a == buf[..] && Loop(s, a, i, c, l, cur, dst, move, q)
    requires Next(q, s[i]) == ACCEPT
    modifies buf
    ensures a' == buf[..] && Loop(s, a', i + 1, c', l', cur', dst', move', ACCEPT)
  {
    LoopBounds(s, a, i, c, l, cur, dst, move, q);
    if move {
      MoveDown(buf, dst, cur, l);
    }
    dst' := dst + l;
    cur' := cur + l;
    l' := 0 + 1;
    move' := move;
    a' := buf[..];
    c' := LoopKeep(s, a, a', i, c, l, cur, dst, move, q, l', cur', dst');
  }

  /**
   * A byte on which the decoder does not accept, already decoded into `d`.
   * On REJECT the run is dropped, `move` is set, `l` restarts and the
   * decoder starts over; in any other state the character goes on and `l`
   * grows by the loop's `l++`. The buffer is not touched.
   */
  method PassByte(ghost s: seq<byte>, ghost a: seq<byte>, i: nat, ghost c: Cut, ghost q: State,
                  d: Decoder, l: nat, cur: nat, dst: nat, move: bool)
    returns (ghost c': Cut, d': Decoder, l': nat, cur': nat, dst': nat, move': bool)
    requires i < |s| && Loop(s, a, i, c, l, cur, dst, move, q)
    requires d.state == Next(q, s[i]) && d.state != ACCEPT
    ensures Loop(s, a, i + 1, c', l', cur', dst', move', d'.state)
  {
    if d.state == REJECT {
      c' := LoopDrop(s, a, i, c, l, cur, dst, move, q);
      d' := d.(state := ACCEPT);
      move' := true;
      cur' := cur + l;
      l' := 0 + 1;
      dst' := dst;
    } else {
      c' := LoopPend(s, a, i, c, l, cur, dst, move, q);
      d' := d;
      l' := l + 1;
      cur', dst', move' := cur, dst, move;
    }
  }

  /** `s[dst] = '\0'`: one zero byte written, nothing else changed. */
  method Terminate(buf: array<byte>, k: nat)
    requires k < buf.Length
    modifies buf
    ensures buf[..] == old(buf[..])[k := 0]
  {
    buf[k] := 0;
  }

  /**
   * The loop of `utf8_stripinval`, over the string up to its terminator,
   * and what it leaves: see LoopEnd.
   */
  method StripLoop(buf: array<byte>) returns (ghost c: Cut, l: nat, dst: nat, move: bool)
    requires 0 in buf[..]
    modifies buf
    ensures var t := Text(old(buf[..]));
      c == StripCut(t) && move == Dropped(c.pieces) && (l != 1 <==> c.pending != []) &&
      WellFormed(Kept(c.pieces)) && (WellFormed(t) <==> !move && l == 1)
    ensures !move ==> buf[..] == old(buf[..])
    ensures move || l != 1 ==>
              dst < buf.Length && |Kept(c.pieces)| < |Text(old(buf[..]))| &&
              buf[..][dst := 0] == Kept(c.pieces) + [0] + old(buf[..])[|Kept(c.pieces)| + 1..] &&
              Text(buf[..][dst := 0]) == Kept(c.pieces)
  {
    ghost var s := buf[..];
    ghost var n := |Text(s)|;
    assert n < buf.Length && buf[n] == 0;
    move := false;
    var d := Initial();
    var i, cur;
    i, l, cur, dst := 0, 1, 0, 0;
    c := Cut([], []);
    LoopStart(s);
    while buf[i] != 0
      invariant i <= n
      invariant Loop(s, buf[..], i, c, l, cur, dst, move, d.state)
      decreases n - i
    {
      ghost var a;
      a, c, d, l, cur, dst, move := Step(buf, s, buf[..], i, c, d, l, cur, dst, move);
      i := i + 1;
    }
    LoopEnd(s, buf[..], i, c, l, cur, dst, move, d.state);
  }

  /**
   * The loop of `utf8_nstripinval`, over the first `len` bytes or up to the
   * first zero: it ends where that scan stops, in the state Loop describes.
   */
  method NStripLoop(buf: array<byte>, len: nat)
    returns (ghost c: Cut, i: nat, l: nat, cur: nat, dst: nat, move: bool, ghost q: State)
    requires Readable(buf[..], len)
    modifies buf
    ensures i <= len && i <= buf.Length && (i < len ==> i < buf.Length && buf[i] == 0)
    ensures 0 !in old(buf[..])[..i]
    ensures Loop(old(buf[..]), buf[..], i, c, l, cur, dst, move, q)
  {
    ghost var s := buf[..];
    move := false;
    var d := Initial();
    i, l, cur, dst := 0, 1, 0, 0;
    c := Cut([], []);
    LoopStart(s);
    while i < len && buf[i] != 0
      invariant i <= len && i <= buf.Length
      invariant i < len ==> i < buf.Length
      invariant 0 !in s[..i]
      invariant Loop(s, buf[..], i, c, l, cur, dst, move, d.state)
    {
      ghost var a;
      a, c, d, l, cur, dst, move := Step(buf, s, buf[..], i, c, d, l, cur, dst, move);
      ScanMore(s, len, i);
      i := i + 1;
    }
    q := d.state;
  }

  /**
   * `utf8_stripinval`: removes every run the decoder rejects, the rejecting
   * byte included, moving the characters after it down; if anything was
   * removed, a zero ends what is left. The buffer is untouched otherwise.
   * -EINVAL for a null buffer.
   */
  method StripInval(buf: array?<byte>) returns (r: Status)
    requires buf != null ==> 0 in buf[..]
    modifies buf
    ensures buf == null ==> r == Fail(EINVAL)
    ensures buf != null ==>
              var t := Text(old(buf[..]));
              var c := StripCut(t);
              r == Ok(0) &&
              (Dropped(c.pieces) ==>
                 |Kept(c.pieces)| < |t| &&
                 buf[..] == Kept(c.pieces) + [0] + old(buf[..])[|Kept(c.pieces)| + 1..]) &&
              (!Dropped(c.pieces) ==> buf[..] == old(buf[..])) &&
              Text(buf[..]) == Stripped(t)
  {
    if buf == null {
      return Fail(EINVAL);
    }
    ghost var c;
    var l, dst, move;
    c, l, dst, move := StripLoop(buf);
    if move {
      Terminate(buf, dst);
    }
    r := Ok(0);
  }

  /**
   * `utf8_nstripinval`: as `utf8_stripinval` on the first `len` bytes or up
   * to the first zero, whichever comes first. A `len` of 0 is not an error:
   * nothing changes. -EINVAL for a null buffer.
   */
  method NStripInval(buf: array?<byte>, len: nat) returns (r: Status)
    requires buf != null ==> Readable(buf[..], len)
    modifies buf
    ensures buf == null ==> r == Fail(EINVAL)
    ensures buf != null ==>
              var t := Scanned(old(buf[..]), len);
              var c := StripCut(t);
              r == Ok(0) &&
              (Dropped(c.pieces) ==>
                 |Kept(c.pieces)| < |t| &&
                 buf[..] == Kept(c.pieces) + [0] + old(buf[..])[|Kept(c.pieces)| + 1..]) &&
              (!Dropped(c.pieces) ==> buf[..] == old(buf[..]))
  {
    if buf == null {
      return Fail(EINVAL);
    }
    ghost var s := buf[..];
    ghost var c, q;
    var i, l, cur, dst, move;
    c, i, l, cur, dst, move, q := NStripLoop(buf, len);
    NStripFinish(s, len, buf[..], i, c, l, cur, dst, move, q);
    if move {
      Terminate(buf, dst);
    }
    r := Ok(0);
  }

  /**
   * `utf8_stripinval` as evidently intended: a character left unfinished at
   * the end of the string is removed too, also when nothing else was, so
   * what is left is always well-formed. The only change to the source is
   * the final test, `move || l != 1` in place of `move`.
   */
  method StripInvalCorrected(buf: array?<byte>) returns (r: Status)
    requires buf != null ==> 0 in buf[..]
    modifies buf
    ensures buf == null ==> r == Fail(EINVAL)
    ensures buf != null ==>
              var t := Text(old(buf[..]));
              var c := StripCut(t);
              r == Ok(0) &&
              (Dropped(c.pieces) || c.pending != [] ==>
                 |Kept(c.pieces)| < |t| &&
                 buf[..] == Kept(c.pieces) + [0] + old(buf[..])[|Kept(c.pieces)| + 1..]) &&
              (!Dropped(c.pieces) && c.pending == [] ==> buf[..] == old(buf[..])) &&
              Text(buf[..]) == StrippedCorrected(t) &&
              WellFormed(Text(buf[..]))
  {
    if buf == null {
      return Fail(EINVAL);
    }
    ghost var c;
    var l, dst, move;
    c, l, dst, move := StripLoop(buf);
    if move || l != 1 {
      Terminate(buf, dst);
    }
    r := Ok(0);
  }
}
