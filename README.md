# libutf8 in Dafny

A model of libutf8 (`src/utf8.c`), a small C library for UTF-8 strings that
verifies, counts, measures, terminates, strips, decodes and lowercases byte
buffers in place. Each of these operations is a loop around one step of Bjoern
Hoehrmann's table-driven decoding automaton. The model keeps that structure:

- `Utf8Dfa` (dfa.dfy) holds the automaton. That is the 364-byte table
  `g_utf8d` (256 byte classes, then nine rows of twelve transitions) and the
  step `decode`, which updates a state and a 32-bit code point accumulator.
  `Next` states the transition by byte ranges. `NextIsTable` proves it equal
  to the table lookup for every state and byte.
- `Rfc3629` (rfc3629.dfy) is the reference the automaton is measured against.
  It holds the UTF-8 grammar of section 4 of RFC 3629 and the bit layout of
  section 3 of RFC 3629. Nothing in it comes from the library.
- `Utf8DfaCorrect` (dfa_correct.dfy) proves what the automaton computes:
  - from ACCEPT it is on ACCEPT exactly after a well-formed sequence;
  - it is on REJECT exactly when no continuation could make the input
    well-formed;
  - on ACCEPT the accumulator holds the scalar value of the character just
    read.
- `Utf8Encode` (encode.dfy) is `encoded_type` and `encode1`…`encode4`, with
  their round trip with decoding.
- `CaseFold` (casefold.dfy) is the case table `g_ccb` and the lookup
  `downcase`. `Utf8Lowercase` (lowercase.dfy) lifts that lookup to
  well-formed texts.
- `Utf8Scan` (scan.dfy) says, as functions on the bytes a scan reads:
  - where a scan stops (`while (*s)` or `for (i = 0; i < len && s[i]; i++)`);
  - how many ACCEPT states it passes;
  - the index of the last byte it accepts on;
  - which code points it hands out.
- `Utf8Buffer` (buffer.dfy) holds the read-only operations as methods over
  an `array?<byte>`, each proved against those functions:
  - `utf8_check` and `utf8_ncheck`;
  - `utf8_count` and `utf8_ncount`;
  - `utf8_len` and `utf8_nlen`;
  - `utf8_decode`.
- `Utf8Term` (term.dfy) holds `utf8_term` and `utf8_nterm`, which write a
  zero into the buffer.
- `Utf8Strip` (strip.dfy) describes what `utf8_stripinval` keeps. The
  string is cut into kept characters, dropped runs (each ending with the byte
  the automaton rejected) and an unfinished run. `Utf8StripInval`
  (stripinval.dfy) holds the in-place loop with its `cur`/`dst`/`l` cursors
  and `memmove`.
- `Utf8Downcase` (downcase.dfy) holds the in-place `utf8_downcase`. Its write
  cursor trails its read cursor.

A null pointer is `null`. A return value is `Ok(n)` for a non-negative
result, or `Fail(e)` for a negated errno (`EINVAL`, `ENOMEM`).
`UTF8_FAULT_INVALID` is the constant 1. A C string is an array that holds a
zero byte; `Text` is what lies before the first zero.

Two consequences of the code shape the whole model.

- The REJECT row of the transition table (src/utf8.c:227) is all REJECT, so
  once the automaton rejects a byte it stays there and never resynchronises.
  `utf8_check`, `utf8_count`, `utf8_len`, `utf8_decode` and `utf8_downcase`
  therefore see only the longest well-formed prefix
  (`Utf8Dfa.RejectAbsorbing`).
- `utf8_stripinval` drops a rejected run together with the byte that caused
  the rejection, then restarts the decoder on the byte after it. E0 41 42
  thus loses E0 41 and leaves "B" (`Utf8Strip.StripDropsRejectingByte`).

## Model

| member | source | states |
|---|---|---|
| Utf8Dfa.ClassSpec | src/utf8.c:216-223 | the class `g_utf8d[byte]` of every byte is the one its range gives: ASCII 0; continuation bytes 1, 9, 7; two-byte leads 2; E0 10; ED 4; other three-byte leads 3; F0 11; F1-F3 6; F4 5; C0, C1 and F5-FF 8. It is always below 12. |
| Utf8Dfa.NextIsTable | src/utf8.c:227-231 | for every state and byte, the transition stated by byte ranges equals the table entry `g_utf8d[256 + state + class]` |
| Utf8Dfa.LeadMaskIsShift | src/utf8.c:242 | the mask for each class is `0xff >> class`, i.e. 2^(8-class) - 1 |
| Utf8Dfa.RejectAbsorbing | src/utf8.c:227 | the REJECT row is all REJECT: no byte sequence leads out of REJECT |
| Utf8Dfa.Decode | src/utf8.c:235-248 | one `decode` step: the new state is the table's transition `Next(state, byte)`; from ACCEPT the accumulator is the byte masked by `(0xff >> class)`, so at most the byte; otherwise it is `(acc << 6) \| (byte & 0x3f)` in uint32, i.e. its low six bits are the byte's and above them sits the old accumulator without its top six bits |
| Utf8Dfa.RunDecoderState | src/utf8.c:235-248 | the state part of the decoder after a run of `decode` steps is the automaton's run on the same bytes |
| Utf8DfaCorrect.AcceptIffWellFormed | src/utf8.c:235-248 | from ACCEPT, the automaton is on ACCEPT after `s` if and only if `s` is a concatenation of well-formed UTF-8 characters per section 4 of RFC 3629 |
| Utf8DfaCorrect.RejectIffNotViable | src/utf8.c:235-248 | from ACCEPT, the automaton is on REJECT after `s` if and only if no continuation makes `s` well-formed, so any ill-formed byte drives it to REJECT |
| Utf8DfaCorrect.CharRun | src/utf8.c:216-231 | on a prefix of one character it reaches ACCEPT exactly when the prefix is complete and well-formed, and REJECT when it is complete and ill-formed |
| Utf8DfaCorrect.LeadPayload | src/utf8.c:242 | a lead byte read on ACCEPT leaves its payload bits (the byte minus its length marker) in the accumulator |
| Utf8DfaCorrect.TailPayload | src/utf8.c:242 | a continuation byte read in the middle of a character shifts the accumulator six bits left and appends its low six bits |
| Utf8DfaCorrect.DecodeChar | src/utf8.c:235-248 | after a well-formed character read from ACCEPT, the decoder is on ACCEPT and holds the character's scalar value, whatever the accumulator held before |
| Utf8DfaCorrect.AcceptedValue | src/utf8.c:235-248 | when a byte completes a well-formed text, the accumulator holds the value of the character that starts at the end of the longest well-formed proper prefix |
| Utf8Encode.EncodedType | src/utf8.c:250-260 | `encoded_type` gives 1 to 4 bytes |
| Utf8Encode.Encode | src/utf8.c:262-320 | `encode` through `encode1`…`encode4` writes exactly `EncodedType(cp)` bytes, 1 to 4 by the thresholds of `encoded_type`; which bytes, and that they decode back to `cp`, is `EncodeScalar` and `EncodeCharValue` |
| Utf8Encode.EncodeScalar | src/utf8.c:262-320 | the encoding of a scalar value is one well-formed character that decodes back to that value |
| Utf8Encode.EncodeCharValue | src/utf8.c:262-320 | every well-formed character is the encoding of its own value: encoding what was decoded gives back the same bytes, and as many of them |
| Utf8Encode.EncodeRoundTripIff | src/utf8.c:304-320 | encoding a code point gives a well-formed character that decodes back to it if and only if the code point is a scalar value |
| Utf8Encode.EncodeTruncates | src/utf8.c:292-302 | the cast to uint8_t in `encode4` drops the high bits: 0x410000 is written as the bytes of U+10000 |
| CaseFold.Downcase | src/utf8.c:334-356 | the table scan, which stops at the first block starting past the code point, returns the shift of the first block that applies, or the code point itself when none does |
| CaseFold.Shifted | src/utf8.c:322-332 | `downcase_block` moves a code point by `len + dshift`, `downcase_alt` by `dshift`, both in uint32: the result equals the moved value modulo 2^32, and is exactly that value when it does not wrap |
| CaseFold.Lower | src/utf8.c:334-356 | what `downcase` computes over the whole table: the code point itself, or its shift by a block that applies to it (first such block, as `CaseFold.LowerAt` and `CaseFold.LowerCandidate` make precise) |
| CaseFold.LowerAt | src/utf8.c:322-332 | in an ordered table, a code point a block applies to is moved by that block's shift: `len + dshift` for BLOCK, `dshift` for ALTERNATING when the parity matches the start |
| CaseFold.LowerUnmapped | src/utf8.c:355 | a code point no block applies to is returned unchanged |
| CaseFold.LowerCandidate | src/utf8.c:339-353 | only the last block starting at or below the code point can apply, which is why the scan may stop early |
| CaseFold.CaseTableOrdered | src/utf8.c:82-205 | the table's starts ascend and no block overlaps the next, as the comment before `g_ccb` demands |
| CaseFold.CaseTableFits | src/utf8.c:71-75 | every `len` fits its 6-bit field and every `dshift` its signed 9-bit field |
| CaseFold.CaseTableMisplacesU019D | src/utf8.c:197-204 | the last block sends U+019D to U+0273 instead of its small letter U+0272 |
| CaseFold.CorrectedIsLatinLowercase | src/utf8.c:87-205 | with the last block corrected, the table is the simple lowercase mapping of the capitals among U+0041..U+019D that its blocks address, except that U+0130 goes to U+0131; every other code point is left unchanged |
| CaseFold.UnaddressedCapitals | src/utf8.c:87-205 | U+0178, U+0181, U+0186, U+0189, U+018A, U+018E, U+018F, U+0190, U+0193, U+0194, U+0196, U+0197 and U+019C, which no block addresses, come back unchanged from both tables |
| CaseFold.CaseTablesAgree | src/utf8.c:87-205 | the table as written and the corrected one agree on every code point but U+019D |
| CaseFold.LowerKeepsWidth | src/utf8.c:334-356 | with the corrected table, lowercasing keeps the number of bytes of the encoding and maps scalar values to scalar values |
| CaseFold.LowerIdempotent | src/utf8.c:334-356 | with the corrected table, lowercasing twice is lowercasing once (for the table as written see `Utf8Lowercase.LibraryTableLower`) |
| Utf8Lowercase.LibraryTableLower | src/utf8.c:334-356 | for either table: the table is ordered, lowercasing keeps the encoded width, maps scalar values to scalar values and is idempotent |
| Utf8Lowercase.LoweredLength | src/utf8.c:636-657 | the lowercased text is exactly as long as the text, so it can be written over it |
| Utf8Lowercase.LoweredCodepoints | src/utf8.c:636-657 | the lowercased text is well-formed and holds the lowercase of each of the text's scalar values, one for one |
| Utf8Lowercase.LoweredIdempotent | src/utf8.c:636-657 | lowercasing a lowercased text changes nothing |
| Utf8Scan.Stop | src/utf8.c:411 | the scan `i < len && s[i]` stops at the first zero byte or at `len`, inside the buffer, with no zero before |
| Utf8Scan.ScannedReachesText | src/utf8.c:411 | once `len` reaches the terminator, the bounded scan visits exactly the zero-terminated string, so each `n` operation then agrees with its twin |
| Utf8Scan.Accepts | src/utf8.c:431-434 | the number of ACCEPT states never exceeds the number of bytes scanned |
| Utf8Scan.AcceptsCountsCharacters | src/utf8.c:417-437 | counting ACCEPT states counts the characters of the longest well-formed prefix |
| Utf8Scan.LastAccept | src/utf8.c:477-481 | the index of the last accepting byte is below the number of bytes scanned whenever that is positive |
| Utf8Scan.LastAcceptIsLongest | src/utf8.c:462-484 | that index is one less than the length of the longest well-formed prefix, and 0 when that prefix is empty |
| Utf8Scan.EmittedIsCodepoints | src/utf8.c:358-378 | the accumulator values at ACCEPT states are, in order, the scalar values of the characters of the longest well-formed prefix |
| Utf8Scan.TextAfterZero | src/utf8.c:519-522 | writing a zero inside a string cuts it there; writing one on or past its terminator leaves it |
| Utf8Buffer.Check | src/utf8.c:380-396 | 0 if the string is well-formed, `UTF8_FAULT_INVALID` (1) if not, -EINVAL for null |
| Utf8Buffer.NCheck | src/utf8.c:398-415 | the same on the first `len` bytes or up to the first zero; -EINVAL for null or `len` 0 |
| Utf8Buffer.Count | src/utf8.c:417-437 | the number of characters of the longest well-formed prefix; -EINVAL for null |
| Utf8Buffer.NCount | src/utf8.c:439-460 | the same within the first `len` bytes; -EINVAL for null or `len` 0 |
| Utf8Buffer.Len | src/utf8.c:462-484 | the index of the last byte of the longest well-formed prefix, or 0 when it is empty; -EINVAL for null; the buffer is not modified |
| Utf8Buffer.NLen | src/utf8.c:486-508 | the same within the first `len` bytes; `len` 0 gives 0 |
| Utf8Buffer.DecodeBuffer | src/utf8.c:358-378 | the callback receives, in order, the scalar values of the characters of the longest well-formed prefix; no call and -EINVAL for null |
| Utf8Term.TermIndexIsLongest | src/utf8.c:510-525 | the zero lands right after the longest well-formed prefix, or after the first byte when that prefix is empty |
| Utf8Term.TermKeepsInvalidFirstByte | src/utf8.c:510-525 | FF 41 is cut to FF, which is not well-formed |
| Utf8Term.Term | src/utf8.c:510-525 | one zero written at `utf8_len() + 1`, no other byte changed, and what the string then reads; -EINVAL for null |
| Utf8Term.NTerm | src/utf8.c:527-545 | -ENOMEM with the buffer unchanged when `utf8_nlen() + 1 >= len`; otherwise one zero at that index and nothing else changed; -EINVAL for null |
| Utf8Term.ValidLength | src/utf8.c:486-508 | the length of the longest well-formed prefix of what a scan of `len` bytes reads |
| Utf8Term.TermCorrected | src/utf8.c:510-525 | the corrected `utf8_term` leaves exactly the longest well-formed prefix, which is well-formed |
| Utf8Term.NTermCorrected | src/utf8.c:527-545 | the corrected `utf8_nterm` puts the zero right after the longest well-formed prefix, or returns -ENOMEM |
| Utf8Strip.StripCutIsCut | src/utf8.c:565-583 | the loop's cut is valid: the pieces and the unfinished run make up the string; kept pieces are characters; dropped pieces are shortest rejected runs; the unfinished run is a character cut short; the automaton is on REJECT exactly when something was dropped |
| Utf8Strip.KeptWellFormed | src/utf8.c:567-575 | the kept characters, in their original order, make a well-formed text |
| Utf8Strip.DroppedShrinks | src/utf8.c:577-582 | dropping a run shortens the string |
| Utf8Strip.CutOfWellFormed | src/utf8.c:565-583 | a string is well-formed if and only if nothing is dropped and nothing is left unfinished |
| Utf8Strip.StrippedWellFormed | src/utf8.c:547-589 | stripping leaves a well-formed string alone; when it removes anything, the rest is well-formed and shorter; it never adds bytes |
| Utf8Strip.StripIdempotent | src/utf8.c:547-589 | stripping twice is stripping once |
| Utf8Strip.StripDropsRejectingByte | src/utf8.c:577-582 | E0 41 42 becomes "B": the rejecting byte 41 goes with the run |
| Utf8Strip.StripKeepsTruncatedTail | src/utf8.c:585-586 | "A" followed by a lone E0 is left as it is, and it is not well-formed |
| Utf8Strip.StrippedCorrectedWellFormed | src/utf8.c:547-589 | corrected stripping always leaves a well-formed string, changes a string exactly when it is ill-formed, is idempotent and never adds bytes |
| Utf8Strip.KeptNoZero | src/utf8.c:585-586 | the kept bytes of a string contain no zero, so the written terminator ends them |
| Utf8StripInval.ProgressBounds | src/utf8.c:565-583 | throughout the loop `cur + l == i + 1` and `dst <= cur`; `dst == cur` until something is dropped and `dst < cur` after; the bytes of the run being read, `s[cur..cur+l]`, are not yet overwritten |
| Utf8StripInval.MoveDown | src/utf8.c:569 | `memmove(&s[dst], &s[cur], l)` puts the run at `dst` and changes nothing else |
| Utf8StripInval.Step | src/utf8.c:566-582 | one loop pass keeps the loop's invariant, which ties the cursors and the buffer to the cut of the bytes read so far |
| Utf8StripInval.KeepChar | src/utf8.c:567-575 | a completed character is moved down to `dst` when something was dropped before it and left in place otherwise; both cursors pass it and the invariant is kept with the character added to the kept pieces |
| Utf8StripInval.PassByte | src/utf8.c:577-582 | a rejected run is dropped with its rejecting byte, `move` is set and the decoder restarts; any other non-accepting byte extends the unfinished run; the buffer is not touched |
| Utf8StripInval.LoopEnd | src/utf8.c:583-586 | when the loop stops on the terminator its cut is the cut of the whole string; without `move` the buffer is the original string; a zero at `dst` leaves exactly the kept characters |
| Utf8StripInval.StripLoop | src/utf8.c:565-583 | the loop over the string up to its terminator ends with the cut of the string, the kept characters moved to the front when anything was dropped and the buffer untouched otherwise |
| Utf8StripInval.Terminate | src/utf8.c:586 | `s[dst] = '\0'` writes one zero and changes nothing else |
| Utf8StripInval.StripInval | src/utf8.c:547-589 | when a run was dropped, the buffer holds the kept characters, a zero, then the old bytes; otherwise it is untouched; the string then reads as `Stripped`; returns 0, or -EINVAL for null |
| Utf8StripInval.NStripLoop | src/utf8.c:609-627 | the loop of `utf8_nstripinval` stops after `len` bytes or on a zero, whichever comes first, with the loop's invariant holding over the bytes it read |
| Utf8StripInval.NStripFinish | src/utf8.c:627-630 | where that loop stops, its cut is the cut of the scanned bytes; a zero at `dst` after a drop leaves exactly the kept characters; without a drop the buffer is unchanged |
| Utf8StripInval.NStripInval | src/utf8.c:591-633 | the same on the first `len` bytes or up to the first zero; `len` 0 changes nothing |
| Utf8StripInval.StripInvalCorrected | src/utf8.c:547-589 | corrected stripping also ends the string before an unfinished last character, so what is left is always well-formed |
| Utf8Downcase.EncodeAt | src/utf8.c:304-320 | `p += encode(cp, p)` writes the encoding of `cp` at `p`, changes nothing else and returns its length |
| Utf8Downcase.LoweringRead | src/utf8.c:650-653 | the write cursor `p` never passes the read cursor, so the byte about to be read is still the original one and the loop stops exactly on the terminator |
| Utf8Downcase.LoweringAccept | src/utf8.c:651-653 | when a byte completes a character, its lowercase has exactly as many bytes and goes where the character started |
| Utf8Downcase.LowerStep | src/utf8.c:651-653 | one loop pass keeps the invariant: the well-formed prefix read so far is lowercased in place and everything after it is unchanged |
| Utf8Downcase.DowncaseBuffer | src/utf8.c:636-657 | every character of the longest well-formed prefix is replaced in place by the encoding of its lowercase; the rest, including the terminator, is unchanged; returns 0, or -EINVAL for null |

## Left out

- `src/test.c` is a command-line demo that only reads arguments and prints. It is not part of this model.
- The callback of `utf8_decode` (`struct utf8_codepoint_listener`) is modelled as the sequence of values it would receive.
- Null pointers are `null` in `array?<byte>`. errno values are the abstract `EINVAL` and `ENOMEM`. `size_t` and `ssize_t` are `nat`, so the mixed signed/unsigned comparison `i < len` is not modelled.
- The bit operations of `decode`, `encode1`…`encode4` and the case shifts are written as arithmetic: masks as `%`, shifts as `/` and `*`, and an OR into clear bits as `+`. The uint32 arithmetic wraps explicitly.
- The bit-field widths of `struct case_shift_data` are not part of the type. `CaseFold.CaseTableFits` proves that every entry fits them.
- `utf8_decode` leaves its accumulator uninitialised. The model starts it at 0, and `Utf8DfaCorrect.DecodeChar` shows that the starting value does not matter.
- Utf8Term.Term: requires room for the zero it writes (at index 1 for an empty string). It writes past the string without a bound, and the model makes that a precondition instead of modelling memory safety.
- Utf8Term.NTerm: requires `len` to be at most the buffer's length, so that the zero it writes stays inside the buffer.
- Utf8Buffer.NCheck, NCount, NLen, Utf8StripInval.NStripInval: require that a scan of `len` bytes stays inside the buffer, i.e. that `len` is within the buffer or a zero comes first.
- The lowercase operations take a `table` that is either `g_ccb` as written or the corrected table of the findings below.
- `g_ccb` maps U+0130 to U+0131, not to U+0069 as Unicode does: U+0130 is the even slot of the ALTERNATING block at `LATIN_BLK3` (src/utf8.c:116, len 55, dshift +1). The mapping keeps the 2-byte width that the in-place rewrite of `utf8_downcase` relies on, since that rewrite writes no new terminator, so it is not listed as a finding. `CaseFold.CorrectedIsLatinLowercase` states it.
- Utf8Encode.EncodeTruncates: `encode` does not check that its argument is a scalar value. Values past U+10FFFF lose their high bits in `encode4`; this is stated, not corrected. Inside the library `encode` only sees lowercased scalar values.
- `g_ccb` has no block for 13 capitals in U+0041..U+019D that Unicode lowercases: U+0178, U+0181, U+0186, U+0189, U+018A, U+018E, U+018F, U+0190, U+0193, U+0194, U+0196, U+0197 and U+019C. Both tables leave them unchanged (`CaseFold.UnaddressedCapitals`), and `CaseFold.LatinLowercase` does too, since it describes what the blocks address. The model therefore does not claim that the library lowercases them.
- `INLINE` (`always_inline`) has no meaning in the model.

## Findings

| source | as written | input that shows it | evidently intended | confidence | as-written member | corrected member |
|---|---|---|---|---|---|---|
| src/utf8.c:197-204 | the last `g_ccb` block (U+019D, BLOCK, len 1, dshift +213) moves U+019D by 214 | U+019D (Ɲ) becomes U+0273 (ɳ, n with retroflex hook), not U+0272 (ɲ, n with left hook) | dshift +212, so that U+019D goes to its small letter U+0272 | high (not executed) | CaseFold.CaseTableMisplacesU019D | CaseFold.CorrectedIsLatinLowercase |
| src/utf8.c:510-545 | `utf8_term` writes the zero at `utf8_len() + 1`, and `utf8_len` is 0 both when nothing is valid and when one 1-byte character is | the string FF 41 is cut to FF, which is not well-formed | terminate at the first invalid character, as src/utf8.h:73 says, leaving the longest well-formed prefix | high (not executed) | Utf8Term.TermKeepsInvalidFirstByte | Utf8Term.TermCorrected |
| src/utf8.c:585-586 | the terminator is written only if a run was dropped, so a character cut short at the end survives when nothing else was invalid | the string 41 E0 ("A", lone E0) is left unchanged and is not well-formed | strip every invalid sequence, as src/utf8.h:81 says, including one cut short at the end | medium (not executed) | Utf8Strip.StripKeepsTruncatedTail | Utf8StripInval.StripInvalCorrected |
