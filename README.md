# UTF-8 validation in websocket-client, modelled in Dafny

`libs/websocket/_utils.py` checks the payload of WebSocket text frames with
`validate_utf8`. Without the optional compiled `wsaccel` package, this is a
pure-Python port of Bjoern Hoehrmann's DFA decoder. It has three parts:

- a 364-entry table `_UTF8D`:
  - its first 256 entries map each byte to a character class 0..11;
  - its last 108 entries map `state + class` to the next state;
- the step function `_decode(state, codep, ch)`;
- the loop `_validate_utf8`, which folds `_decode` over the bytes and returns
  `False` as soon as the state is `_UTF8_REJECT`.

The project models this code and proves what it decides. The reference is the
`UTF8-octets` grammar of section 4 of RFC 3629.

- `utf8_table.dfy` (module `Utf8Table`) holds:
  - `_UTF8D` transcribed entry for entry (`Utf8d`);
  - the two distinguished states;
  - a readable automaton `NextRef` over byte ranges, with one named state per
    pending situation.

  It proves that every table lookup `_UTF8D[256 + state + _UTF8D[b]]` equals
  `NextRef(state, b)`, and that the table is well formed.
- `utf8_dfa.dfy` (module `Utf8Dfa`) holds:
  - `_decode`, with Python's `&`, `|`, `>>` and `<<` written out on naturals;
  - the fold of `_decode` over a byte string (`Run`) and the fold of
    `NextRef` (`StateAfter`);
  - `_validate_utf8` as a method with a loop (`ValidateUtf8Loop`).
- `rfc3629.dfy` (module `Rfc3629`) holds the reference:
  - the `UTF8-char` and `UTF8-octets` grammar of RFC 3629 section 4;
  - the scalar value a character encodes, and the shortest-form encoding of
    section 3, with both round trips proved.

  This module models no source code, so it has no rows in the table below.
- `utf8_validation.dfy` (module `Utf8Validation`) relates the automaton to the
  grammar:
  - soundness and completeness;
  - the exact set of inputs for which the loop returns `True`;
  - the rejections listed in RFC 3629;
  - the public `validate_utf8` (`ValidateUtf8`);
  - a validator that also checks the final state (`ValidateUtf8Strict`).
- `utf8_codepoint.dfy` (module `Utf8Codepoint`) proves that the code point
  `_decode` accumulates is, after every complete character, that character's
  scalar value. This holds for the character read from ACCEPT and for each
  character that follows a UTF-8 prefix (`CodepointAfterEachChar`). The loop
  `ValidateUtf8Loop` keeps its `(state, codep)` equal to that fold, so the
  results apply to `_validate_utf8`.

Bytes are the integers 0..255 (`Byte`). Python integers are unbounded, and so
are the model's, so `codep << 6` never wraps.

The docstring of `validate_utf8` (line 96) promises `False` for every input
that is not valid UTF-8. The code does not check the final state after the
loop (line 89). A string that ends inside a multi-byte character therefore
yields `True`. The model follows the code: `ValidateUtf8` returns `True`
exactly on the prefixes of UTF-8 strings, not only on UTF-8 strings. See
"## Findings".

## Model

| member | source | states |
|---|---|---|
| Utf8Table.ClassPartAgrees | libs/websocket/_utils.py:53-60 | The first 256 table entries give every byte the class of its range: 0 for ASCII, 1/9/7 for the three continuation ranges 80-8F/90-9F/A0-BF, 8 for C0, C1 and F5-FF, 2 for C2-DF, 10 for E0, 3 for E1-EC and EE-EF, 4 for ED, 11 for F0, 6 for F1-F3, 5 for F4. |
| Utf8Table.ClassEntriesInRange | libs/websocket/_utils.py:53-60 | Every class entry is one of the 12 classes 0..11. |
| Utf8Table.TransitionEntriesAreStates | libs/websocket/_utils.py:64-68 | Every transition entry is a state: a multiple of 12 from 0 to 96. |
| Utf8Table.TableWellFormed | libs/websocket/_utils.py:50-68 | The table has 256 + 9 * 12 entries. Its class part holds classes 0..11 and its transition part holds states, so every lookup `256 + state + class` is in bounds. |
| Utf8Table.NextRef | libs/websocket/_utils.py:64-68 | The automaton always moves to a state, and from `_UTF8_REJECT` only to `_UTF8_REJECT`. |
| Utf8Table.RowAccept | libs/websocket/_utils.py:64 | Row 0 (ACCEPT): ASCII stays in ACCEPT. Each valid leader enters the pending state of its length, with E0, ED, F0 and F4 getting their restricted second byte. Anything else rejects. |
| Utf8Table.RowReject | libs/websocket/_utils.py:64 | Row 12 (REJECT): every class leads back to REJECT. |
| Utf8Table.RowNeed1 | libs/websocket/_utils.py:65 | Row 24 (one continuation byte pending): a continuation byte accepts; anything else rejects. |
| Utf8Table.RowNeed2 | libs/websocket/_utils.py:65 | Row 36 (two pending): a continuation byte moves to row 24; anything else rejects. |
| Utf8Table.RowAfterE0 | libs/websocket/_utils.py:66 | Row 48 (after E0): only A0-BF continues, to row 24. |
| Utf8Table.RowAfterED | libs/websocket/_utils.py:66 | Row 60 (after ED): only 80-9F continues, to row 24. |
| Utf8Table.RowAfterF0 | libs/websocket/_utils.py:67 | Row 72 (after F0): only 90-BF continues, to row 36. |
| Utf8Table.RowNeed3 | libs/websocket/_utils.py:67 | Row 84 (three pending): a continuation byte moves to row 36. |
| Utf8Table.RowAfterF4 | libs/websocket/_utils.py:68 | Row 96 (after F4): only 80-8F continues, to row 36. |
| Utf8Table.TransitionRowAgrees | libs/websocket/_utils.py:64-68 | For every state and byte, the transition entry at `state + class(byte)` is `NextRef(state, byte)`. |
| Utf8Table.TableLookupAgrees | libs/websocket/_utils.py:71-75 | The two lookups of `_decode` (`tp = _UTF8D[ch]`, then `_UTF8D[256 + state + tp]`) are in bounds and give `NextRef(state, ch)`. |
| Utf8Dfa.Decode | libs/websocket/_utils.py:70-77 | The next state of `_decode` is the automaton's next state, whatever `codep` is. It is always a state, and REJECT is never left. |
| Utf8Dfa.DecodeStateIgnoresCodepoint | libs/websocket/_utils.py:70-77 | The next state of `_decode` does not depend on `codep`. |
| Utf8Dfa.Run | libs/websocket/_utils.py:82-85 | Folding `_decode` over a byte string ends in a state. |
| Utf8Dfa.StateAfter | libs/websocket/_utils.py:64-68 | Folding the automaton over a byte string ends in a state. |
| Utf8Dfa.RunFollowsReference | libs/websocket/_utils.py:82-85 | The state after folding `_decode` over any input is the automaton's state after that input, whatever the initial `codep`. |
| Utf8Dfa.RunSnoc | libs/websocket/_utils.py:82-85 | Folding over `w + [b]` is folding over `w`, then one `_decode` step on `b`. |
| Utf8Dfa.RunAppend | libs/websocket/_utils.py:82-85 | Folding `_decode` over `u + v` is folding it over `u`, then over `v` from the state and `codep` that `u` left. |
| Utf8Dfa.RunPrefixStep | libs/websocket/_utils.py:82-85 | One more byte of the input is one more `_decode` step, and the state it reaches is the automaton's. This is the loop's step. |
| Utf8Dfa.StateAfterAppend | libs/websocket/_utils.py:82-85 | Running the automaton over `u + v` is running it over `u`, then over `v`. |
| Utf8Dfa.RejectAbsorbing | libs/websocket/_utils.py:48 | Once in `_UTF8_REJECT`, the automaton stays there for any further input. |
| Utf8Dfa.RejectedPrefixRejects | libs/websocket/_utils.py:86-87 | If some prefix of the input reaches REJECT, the whole input does. |
| Utf8Dfa.ValidateUtf8Loop | libs/websocket/_utils.py:79-89 | The loop's `(state, codep)` after each byte is the fold `Run` of `_decode` over the bytes read so far. `_validate_utf8` returns False exactly when some prefix of the input drives the automaton from ACCEPT to REJECT, which happens exactly when the whole input does. Otherwise it returns True, including on the empty input. |
| Utf8Validation.AcceptsChar | libs/websocket/_utils.py:50-68 | Every RFC 3629 character leads from ACCEPT back to ACCEPT. |
| Utf8Validation.Soundness | libs/websocket/_utils.py:50-68 | Every input in the `UTF8-octets` grammar leads from ACCEPT to ACCEPT. |
| Utf8Validation.Completeness | libs/websocket/_utils.py:50-68 | Every input that leads from ACCEPT to ACCEPT is in the grammar. |
| Utf8Validation.AcceptIffUtf8 | libs/websocket/_utils.py:50-68 | The automaton ends in ACCEPT if and only if the input is UTF-8. |
| Utf8Validation.Completion | libs/websocket/_utils.py:64-68 | From every state other than REJECT, at most three bytes lead back to ACCEPT. |
| Utf8Validation.NotRejectedIffPrefix | libs/websocket/_utils.py:79-89 | The automaton avoids REJECT exactly on the inputs that some bytes complete to UTF-8, i.e. the prefixes of UTF-8 strings. |
| Utf8Validation.RejectedStepRejects | libs/websocket/_utils.py:86-87 | A byte that moves the automaton to REJECT makes the input invalid, whatever follows it. |
| Utf8Validation.AsciiKeepsAccept | libs/websocket/_utils.py:53-56 | Any run of ASCII bytes keeps the automaton in ACCEPT. |
| Utf8Validation.StrayContinuationRejects | libs/websocket/_utils.py:57-58 | After a complete UTF-8 prefix, a continuation byte (80-BF) is rejected, whatever follows. |
| Utf8Validation.InterruptedSequenceRejects | libs/websocket/_utils.py:65-68 | After a complete UTF-8 prefix, a leader (C2-F4) followed by a non-continuation byte is rejected. |
| Utf8Validation.NeverByteRejects | libs/websocket/_utils.py:59-60 | C0, C1 and F5-FF are rejected wherever they occur. |
| Utf8Validation.BadSecondByteRejects | libs/websocket/_utils.py:64-68 | A leader whose second byte the automaton refuses after ACCEPT is rejected wherever the pair occurs. |
| Utf8Validation.Rfc3629Rejections | libs/websocket/_utils.py:64-68 | These are rejected wherever they occur: overlong three-byte forms (E0 80-9F), surrogates (ED A0-BF), overlong four-byte forms (F0 80-8F), and values above U+10FFFF (F4 90-BF). |
| Utf8Validation.TruncatedCharAccepted | libs/websocket/_utils.py:79-89 | A character cut off before its last byte never reaches REJECT, yet it is not UTF-8. |
| Utf8Validation.TruncatedInputAccepted | libs/websocket/_utils.py:89 | `E2 82` leaves the automaton in the one-byte-pending state: not REJECT, so the loop returns True, although `E2 82` is not UTF-8. |
| Utf8Validation.HelloIsUtf8 | libs/websocket/_utils.py:92-98 | The bytes of "hello" are UTF-8. |
| Utf8Validation.EuroSignExamples | libs/websocket/_utils.py:92-98 | `E2 82 AC` is UTF-8; `E2 82 AC 80` is not. |
| Utf8Validation.ValidateUtf8 | libs/websocket/_utils.py:92-98 | `validate_utf8` returns the loop's verdict, a function of the input alone. It returns True exactly on the prefixes of UTF-8 strings, so on every UTF-8 string. |
| Utf8Validation.ValidateUtf8Strict | libs/websocket/_utils.py:79-89 | The same loop with a final check that the state is ACCEPT returns True if and only if the input is UTF-8. |
| Utf8Codepoint.BitAndLowBits | libs/websocket/_utils.py:73-74 | `x & (2^k - 1)` keeps exactly the low `k` bits of `x`. |
| Utf8Codepoint.LowBitsMod | libs/websocket/_utils.py:73-74 | The low `k` bits of `x` are `x mod 2^k`. |
| Utf8Codepoint.MaskLowBits | libs/websocket/_utils.py:74 | `(2^k - 1) & ch` is `ch mod 2^k`. |
| Utf8Codepoint.BitOrDisjoint | libs/websocket/_utils.py:73 | `a \| (h << k)` is `a + (h << k)` when `a < 2^k`. |
| Utf8Codepoint.ShiftLeftSix | libs/websocket/_utils.py:73 | `codep << 6` is `codep * 64`. |
| Utf8Codepoint.LeaderMask | libs/websocket/_utils.py:74 | For the classes of bytes that may start a character, `0xff >> tp` is `2^(8 - tp) - 1` (classes 0 and 2 to 6). It is 0 for classes 10 and 11 (E0 and F0), whose payload is then empty. |
| Utf8Codepoint.ContinuationPayload | libs/websocket/_utils.py:73 | Outside ACCEPT, `_decode` sets `codep` to `codep * 64 + ch mod 64`. |
| Utf8Codepoint.LeaderPayload | libs/websocket/_utils.py:74 | In ACCEPT, `_decode` keeps exactly the payload bits of a leader: ASCII as is, and C2-DF, E0-EF and F0-F4 minus C0, E0 and F0. |
| Utf8Codepoint.ContinuationStep | libs/websocket/_utils.py:73 | A continuation byte after a leader appends its six payload bits to `codep`. |
| Utf8Codepoint.PendingStep | libs/websocket/_utils.py:64-68 | In a pending state, a byte that does not reject is a continuation byte and lowers the pending count by one. ACCEPT is reached exactly when one byte was pending. |
| Utf8Codepoint.RunPending | libs/websocket/_utils.py:82-85 | Completing a pending character with its continuation bytes ends in ACCEPT with each byte's payload appended to `codep`. |
| Utf8Codepoint.RunChar | libs/websocket/_utils.py:82-85 | Decoding a character from ACCEPT ends in ACCEPT, with the leader's payload followed by the continuation payloads. |
| Utf8Codepoint.CharDecodesToScalarValue | libs/websocket/_utils.py:70-77 | From ACCEPT, `_decode` over one RFC 3629 character returns to ACCEPT with `codep` equal to the character's scalar value, whatever `codep` held before. |
| Utf8Codepoint.CodepointAfterEachChar | libs/websocket/_utils.py:82-85 | After any UTF-8 input followed by one more character, the fold of `_decode` is in ACCEPT with `codep` equal to that character's scalar value, whatever `codep` started as. |
| Utf8Codepoint.DecodesEncoding | libs/websocket/_utils.py:70-77 | Decoding the UTF-8 encoding of any scalar value yields that value. |

## Left out

- The `wsaccel` branch (`libs/websocket/_utils.py:35-41`) calls a compiled validator whose code is not part of this model. Only the pure-Python fallback is modelled.
- The `six.PY2` conversion `i = ord(i)` (lines 83-84) makes Python 2 string elements into integers. The model takes the input as a sequence of integers 0..255, which is what both Python versions iterate over after that line.
- `NoLock` (lines 26-32) is a context manager that does nothing. It is unrelated to validation.
- `extract_err_message` and `extract_error_code` (lines 101-110) read attributes of exception objects. They have no UTF-8 logic and depend on Python's exception model.
- `Utf8Dfa.Run` has no early exit. Once REJECT is reached, every further step stays there (`RejectAbsorbing`), so the early `return False` in the loop changes only the running time. The loop method `ValidateUtf8Loop` does model the early return.

## Findings

| source | as written | input that shows it | evidently intended | confidence | as-written member | corrected member |
|---|---|---|---|---|---|---|
| libs/websocket/_utils.py:89 | After the loop, `_validate_utf8` returns `True` without checking that the state is `_UTF8_ACCEPT`. An input that ends inside a multi-byte character is therefore reported valid. | `E2 82`, the first two bytes of U+20AC. It ends in the one-byte-pending state (24) and yields `True`. | Return `state == _UTF8_ACCEPT`, as the docstring (line 96) and the decoder the code ports both expect. | not executed | Utf8Validation.TruncatedInputAccepted | Utf8Validation.ValidateUtf8Strict |
