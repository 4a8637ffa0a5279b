# readlnrs, modelled in Dafny

readlnrs is a small terminal line-input library. It reads raw bytes from the
terminal one at a time and decodes them into logical keys (`read_key`). It
applies each key to a text buffer with a cursor (`readch`). On top of that it
offers two line readers:

- `readln` edits a caller-supplied buffer until Enter.
- `pushln` adds a command history. Up and Down recall earlier lines into
  private working copies. On Enter, a non-empty line is appended to the
  history.

This project models that core as pure functions over immutable data and
proves what the code promises.

- `keys.dfy`: module `Keys`. The `Key` enum, plus the single-unit (ASCII)
  text restriction under which the source's byte offsets and the model's
  character offsets agree.
- `editor.dfy`: module `Editor`. One `readch` step. The key is a parameter;
  each key has its own rule. The word scans are given independent reference
  predicates (`IsLastSpace`, `IsNextStop`). The forward word-scan loop is
  also modelled as written (`MoveWordRight`).
- `line_reader.dfy`: module `LineReader`. `readln` is the editor folded over
  a key sequence, stopping at the first Enter.
- `history.dfy`: module `History`. `pushln` is modelled as a fold over keys.
  A session holds:
  - the working copies (`local_history`);
  - the fresh line;
  - which buffer is active;
  - the recall index `hpos`;
  - the cursor.

  The `usize` arithmetic of lib.rs:86, lib.rs:93 and lib.rs:102 is written
  out (`SaturatingSub`, `WrappingSub`). A session invariant `Inv` shows why
  the copy pushed at lib.rs:108 always lands at the index lib.rs:109 reads.
- `unix_keys.dfy`: module `UnixKeys`. `read_key` and `parse_esc_seq` map a
  byte sequence to the key and the number of bytes consumed. The escape
  table is written out with its six rows and `ESC_SEQ_LEN` = 6. The scan is
  given three ways, and proofs show they agree:
  - as written, with both loops (`ParseEscSeqLoop`);
  - as a recursive function (`ParseFrom`);
  - as a closed-form reference (`EscReference`).

  An encoder (`Encode`) is the decoder's inverse partner.

The blocking reads become sequences. Nothing is returned yet (`None`, or the
`Reading` outcome) when the sequence ends before the source would return.

Behaviour of the code as written, which this model follows:

- **Ctrl+Backspace** cuts from the last space before the cursor, the space
  included, up to the cursor. On "hello world" with the cursor at the end,
  it leaves "hello" with the cursor at 5 (`DeleteWordExample`).
- **Ctrl+Left** moves onto that space, not to the start of the word after
  it. The comment at lib.rs:233 says "beginning of the previous word".
- **Ctrl+Right** stops on the first space after the cursor, or at the end
  of the text, not at the beginning of the next word. The comment at
  lib.rs:234 says "beginning of the next word". On "ab cd" the cursor goes
  from 0 to 2, not 3, and from 2 to 5. On "ab  cd" it goes from 0 to 2 and
  from 2 to 3 (`WordRightExample`).
- **Read budget.** `parse_esc_seq` reads up to `ESC_SEQ_LEN + 1` = 7 bytes
  after ESC before giving up with `NA`. Eight bytes are consumed in all.
- **Matching.** The read byte is compared with each row's byte at the
  current index, but a row can only match at its last index, so only the
  byte read there decides. A row matches when the byte read at its last
  index equals it, whatever came before. So "ESC x A" is Up
  (`FirstByteUnchecked`). Only read 1 (the arrows) and read 4 (the Ctrl
  arrows) can ever match.

## Model

| member | source | states |
|---|---|---|
| Editor.LastSpace | src/lib.rs:257 | The backward scan gives the index of the last space before the cursor, or 0 when there is none. `IsLastSpace` is the independent definition, and the result is below the length of non-empty text. |
| Editor.NextStop | src/lib.rs:264-272 | The forward scan gives the first space strictly after the cursor, or the end of the text. At the end of the text it does not move. |
| Editor.Insert | src/lib.rs:238-241 | Char inserts exactly one character at the cursor, keeps the text before and after it, and advances the cursor past it. |
| Editor.DeleteBack | src/lib.rs:242-247 | Backspace removes the one character left of the cursor. At position 0 the line is unchanged. |
| Editor.MoveLeft | src/lib.rs:248-250 | Left moves one place, saturating at 0. The text is unchanged. |
| Editor.MoveRight | src/lib.rs:251-255 | Right moves one place unless the cursor is at the end. The text is unchanged. |
| Editor.DeleteWord | src/lib.rs:256-260 | Ctrl+Backspace cuts from the last space before the cursor, that space included, up to the cursor. The cursor lands at the cut. |
| Editor.WordLeft | src/lib.rs:261-263 | Ctrl+Left moves to the last space before the cursor, or to 0. Any cursor above 0 strictly decreases. |
| Editor.WordRight | src/lib.rs:264-272 | Ctrl+Right moves to the next space after the cursor, or to the end. The text is unchanged. |
| Editor.MoveWordRight | src/lib.rs:264-272 | The while loop as written stops at exactly the place the reference `IsNextStop` defines. |
| Editor.Apply | src/lib.rs:235-276 | `readch` keeps the cursor inside single-unit text. Only Char, Backspace and Ctrl+Backspace change the text. NA, Enter, Up and Down change nothing. The text grows by at most one character. |
| Editor.BackspaceUndoesInsert | src/lib.rs:238-247 | Backspace right after inserting a character restores the line exactly. |
| Editor.LeftThenRight | src/lib.rs:248-255 | Left then Right restores any cursor above 0. |
| Editor.RightThenLeft | src/lib.rs:248-255 | Right then Left restores any cursor before the end. |
| Editor.DeleteWordIsWordLeftAndCut | src/lib.rs:256-263 | Ctrl+Backspace puts the cursor where Ctrl+Left would. It removes exactly the text between that place and the old cursor. |
| Editor.DeleteWordRemoved | src/lib.rs:256-260 | The cut text is the last space before the cursor followed by space-free text. With no space, everything before the cursor is cut. |
| Editor.WordRightAtEnd | src/lib.rs:266 | Ctrl+Right at the end of the text leaves the line unchanged. |
| Editor.WordRightExample | src/lib.rs:264-272 | Ctrl+Right on "ab cd" moves from 0 to the space at 2, and from that space to the end at 5. On "ab  cd" it moves from 0 to 2 and from 2 to the next space at 3. |
| Editor.DeleteWordExample | src/lib.rs:256-260 | Ctrl+Backspace on "hello world" with the cursor at 11 gives "hello" with the cursor at 5. |
| LineReader.ReadFrom | src/lib.rs:167-172 | The loop returns a line if and only if an Enter arrives. The line is single-unit and at most one character longer per key. |
| LineReader.ReadLine | src/lib.rs:164-176 | `readln` starts with the cursor after the existing text. It returns if and only if Enter is among the keys. |
| LineReader.TypingAtEndAppends | src/lib.rs:238-241 | Typing characters at the end of the text appends them, in order, and leaves the cursor at the end. |
| LineReader.TypingThenEnter | src/lib.rs:164-176 | `readln` on a buffer, with characters typed and then Enter, returns the buffer followed by those characters. |
| LineReader.StopsAtFirstEnter | src/lib.rs:169-171 | Keys after the first Enter have no effect on the result. |
| History.WrappingSub | src/lib.rs:102 | `usize::wrapping_sub` is the plain difference when it fits. Otherwise it wraps to 2^64 minus the deficit. |
| History.SaturatingSub | src/lib.rs:93 | `usize::saturating_sub` is the plain difference when it fits, else 0. |
| History.Start | src/lib.rs:81-85 | A session starts with no working copies, an empty fresh line as the active buffer, the recall index at the history length and the cursor at 0. It satisfies the session invariant. |
| History.Edit | src/lib.rs:91 | `readch` applies the key's editing rule to the active buffer only. Every other buffer, the recall index and the set of copies stay as they were. |
| History.Reselect | src/lib.rs:102-113 | After a recall move, the session invariant holds again and the cursor is at the end of the new active buffer. The step either reuses a copy, pushes exactly one copy of the entry `hpos` names, or returns to the fresh line. Copies are only ever appended, never changed. |
| History.Step | src/lib.rs:88-113 | Up lowers `hpos` by one down to 0. Down raises it by one up to the history length. A new copy is always of the entry the new `hpos` names. Any other key edits only the active buffer. The session invariant is kept. |
| History.Submit | src/lib.rs:116-123 | The returned line is the active buffer. An empty line leaves the history alone. Any other line is appended, and the returned line is the history's last entry. |
| History.Run | src/lib.rs:88-123 | The loop finishes if and only if an Enter arrives. The history then either stays the same (empty line) or gains exactly the returned line. |
| History.PushLine | src/lib.rs:80-124 | `pushln` returns if and only if Enter is among the keys. An empty line leaves the history unchanged. Any other line is appended to the history as exactly one new entry. |
| History.RunAtFirstEnter | src/lib.rs:88-123 | The returned line is the buffer active when the first Enter arrives, submitted as lib.rs:116-123 says. Keys after that Enter are never read. |
| History.LocalPosConsistent | src/lib.rs:102-109 | The wrapped index of lib.rs:102 names an existing copy, or the slot the next push fills, or lies past every copy when the fresh line is selected. A push only happens on Up, one entry older than the oldest copy. |
| History.CopiesCoverVisited | src/lib.rs:102-112 | After any key other than Enter, the number of copies is the distance from the newest entry back to the oldest entry visited, counting the newly selected one. |
| History.CopiesCoverLowest | src/lib.rs:102-112 | Over any run of keys before Enter, the copies reach from the newest entry back to the lowest recall index reached, and no further. So `local_history` holds one copy per distinct recalled entry. |
| History.RecallStepKeepsPristine | src/lib.rs:103-109 | Up and Down only add unchanged copies of stored entries. They never alter the fresh line. |
| History.BrowsingShowsStored | src/lib.rs:93-113 | After any run of Up and Down keys with no edits, the active buffer is the stored entry `hpos` names, or the fresh line, and every copy equals its entry. |
| History.DownOnFreshLine | src/lib.rs:94-113 | Down on the fresh line changes nothing but the cursor, which moves to the end. |
| History.UpThenDownKeepsFreshLine | src/lib.rs:93-113 | Up then Down from the fresh line returns to it with its text intact. |
| History.RevisitReusesCopy | src/lib.rs:103-104 | Returning to an entry that already has a copy selects that same copy, edits included. |
| History.RunWithoutRecallIsReadFrom | src/lib.rs:88-99 | Without Up or Down, `pushln` edits its active buffer exactly as `readln` edits its line. It finishes exactly when `readln` would, with the same text. |
| History.TypedLineIsAppended | src/lib.rs:116-123 | Typing a non-empty line and pressing Enter appends it to the history and returns it. |
| History.RecallOldest | src/lib.rs:93-113 | On ["alpha", "beta"], two Ups show "alpha". |
| History.TwoUpsSelectSecondNewest | src/lib.rs:102-113 | Two Ups select the copy of the second-newest entry, with the cursor at its end. |
| History.EnterSubmitsActive | src/lib.rs:116-123 | Enter on a non-empty active buffer submits it and appends it to the history. |
| History.TypeThenSubmit | src/lib.rs:116-123 | Typing a character at the end of the active buffer and pressing Enter submits the buffer with that character appended. |
| History.EditedRecallIsAppended | src/lib.rs:106-122 | Recalling the second-newest entry, typing a character and pressing Enter appends the edited text as a new entry. The stored entries are left as they were. |
| History.EmptySubmitKeepsHistory | src/lib.rs:117-119 | Enter on an empty line returns "" and does not touch the history. |
| UnixKeys.FirstMatch | src/unix.rs:22-30 | The row search returns None if and only if no row matches. Otherwise it returns the key of a matching row before which no row matches. |
| UnixKeys.MatchAt | src/unix.rs:22-30 | The search over the six-row table equals the evaluated table `TableMatch` and only yields table keys. |
| UnixKeys.FirstMatchIsTableMatch | src/unix.rs:39-47 | On the table as declared, only index 1 with A-D and index 4 with C or D match. They give Up, Down, Right, Left, Ctrl+Right and Ctrl+Left. |
| UnixKeys.ParseFrom | src/unix.rs:20-34 | The while loop consumes at least one byte and at most seven. It gives a table key or NA, and NA only once all seven reads are spent. It gives no answer only when fewer than seven bytes are available. |
| UnixKeys.ParseEscSeq | src/unix.rs:16-35 | `parse_esc_seq` reads between one and seven bytes and yields a table key or NA. NA means all seven were read. |
| UnixKeys.ParseEscSeqLoop | src/unix.rs:16-35 | The nested loops as written compute exactly `ParseEscSeq`. |
| UnixKeys.ReadKey | src/unix.rs:5-14 | Outside ESC, one byte decides the key, each if and only if: 8 or 23 gives Ctrl+Backspace, 10 gives Enter, and 127 gives Backspace (checked before the printable arm). Any other byte above 31 gives Char with that code, and the remaining control bytes give NA. ESC yields only table keys or NA. There is no answer only when the bytes run out. |
| UnixKeys.ParseEscSeqIsReference | src/unix.rs:16-47 | The loop equals the closed-form reference: an arrow when byte 1 after ESC is A-D, else a Ctrl arrow when byte 4 is C or D, else NA after seven bytes. |
| UnixKeys.ConsumedThroughMatch | src/unix.rs:20-34 | A table key is returned on the read that matched, and no earlier read matched. NA comes only after seven non-matching reads. |
| UnixKeys.DecodeArrow | src/unix.rs:41-44 | ESC, any byte, then A-D decodes to the arrow after three bytes. |
| UnixKeys.DecodeCtrlArrow | src/unix.rs:45-46 | ESC, any bytes, with index 2 not A-D and index 5 being C or D, decodes to the Ctrl arrow after six bytes. |
| UnixKeys.DecodeEscape | src/unix.rs:40-47 | Every table sequence, followed by anything, decodes to its own key after exactly its own bytes. |
| UnixKeys.DecodeEncode | src/unix.rs:5-14 | Decoding the encoding of any encodable key gives that key back, having consumed exactly its bytes. |
| UnixKeys.DecodeAllEncodeAll | src/unix.rs:5-14 | A stream of encoded keys decodes to those keys, in order. |
| UnixKeys.EscapeNeverEdits | src/unix.rs:9 | Nothing that starts with ESC changes the text when applied to the line. |
| UnixKeys.CtrlArrowExample | src/unix.rs:43-45 | "ESC [ 1 ; 5 C" is Ctrl+Right after six bytes, and "ESC [ C" is Right after three. |
| UnixKeys.UnknownEscapeIsDropped | src/unix.rs:20-34 | ESC "[" followed by bytes that match no row consumes eight bytes, yields NA and leaves the line unchanged. |
| UnixKeys.FirstByteUnchecked | src/unix.rs:27 | "ESC x A" decodes to Up: the byte read before a row's last index never decides a match. |

## Left out

- `getch` (src/unix.rs:49-95), with its termios mode switches and foreign calls, is left out because it is I/O. Each read is the next element of a byte sequence, and an exhausted sequence stands for a read that would block.
- `promptln`, `println!` and the `CLEAR` sequence (src/lib.rs:13, src/lib.rs:178-185) are left out because they only draw the prompt.
- src/windows.rs and src/bin.rs are not part of this model: one is the other platform's decoder and the other is a demo program.
- Every `io::Result` error path (each `?`) is left out because it only forwards a read or write failure. Reads are taken to succeed.
- Editor.Apply: requires single-unit (ASCII) text and keys, because the source mixes byte offsets with character counts. A byte 128-255 decodes to `Char` of a two-byte character, after which `pos += 1` points inside it. That behaviour, and UTF-8 in general, is not modelled.
- History.PushLine: requires fewer than 2^64 history entries, the `usize` range that `history.len()` lives in. It also requires single-unit (ASCII) entries, though the source accepts any `Vec<String>`, for the reason given under Editor.Apply.
- UnixKeys.ParseFrom: consults the evaluated table `TableMatch`. `MatchAt` and `FirstMatchIsTableMatch` show this equals the row-by-row search, which `ParseEscSeqLoop` runs as written.
- UnixKeys.Encode: encodes Ctrl+Backspace as 23 only, though 8 decodes to it too. It encodes NA as 0, one of the many bytes that decode to NA.
