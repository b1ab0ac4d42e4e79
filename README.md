# A verified model of the multimail terminal editor

multimail's built-in text editor (`Editor` in `src/Multimail/editor.py`)
keeps a grid of `maxY+1` rows of one-character cells, where the empty
string marks a blank cell. It also keeps a single-slot clipboard
(`buffer`), a cursor (`_actualY`, `_actualX`) and a page step of 10 rows.
Every key it reads edits that state in place with Python list operations.
This project models the editor in Dafny and proves what the keys do.

- `outcomes.dfy` (`Outcomes`): the exceptions that can escape a key (an
  `IndexError`, a `chr` argument out of range, a UTF-8 decode error) and a
  `Result` type.
- `rows.dfy` (`Rows`): cells (`Blank` or `Glyph(c)`), rows as sequences,
  the non-blank filter the source writes as `[_f for _f in row if _f]`, and
  the Python list operations the source uses.
- `keys.dfy` (`Keys`): the decoding half of `_get_chr`. It groups the raw
  codes into keys, decodes the two-byte UTF-8 branch as sections 3 and 4 of
  RFC 3629 describe, and has an encoder that is its inverse.
- `grid.dfy` (`Grid`): the editor state as a value, with one function per
  primitive and per key. `Apply` handles one key and `Run` handles a whole
  session. These are the specification the class is proved against.
- `text.dfy` (`Text`): `save_text`.
- `facts.dfy` (`GridFacts`): the reflow and inverse properties of the
  keys, and one end-to-end session.
- `editor.dfy` (`Editors`): the `Editor` class. Its fields are the grid,
  the buffer, the cursor and the input codes with a read position. Each
  method updates the fields in place as the source does and ensures
  `Model() == Grid.F(old(Model()))` for its specification function `F`.
  `Edit` ensures that the final state and the way the session ended are
  the ones `Grid.Run` gives for the codes not yet read.

The window size `rows x cols` is a constructor parameter; in the source it
comes from `getmaxyx`. A finite sequence of codes stands in for `_scan`.
`GetChr` returns a `Reaction`: the key was handled (with a "go on" flag and
a "beep" flag), an exception escaped, or the codes ran out inside a key.
`Text.SaveText`, read through `Editor.SaveText`, gives the saved text.

Behaviour kept as the code has it:
- `_fill` leaves its row with exactly `maxX` cells: it pads or truncates
  and does not move cells. A fresh row has `maxX+1` cells; so does the row
  above the cursor after a backspace join that spills, which appends
  `maxX - p + 1` glyphs after its first `p` cells. Every row has `maxX` or
  `maxX+1` cells.
- Delete-forward can lose a glyph. The merge test counts the glyphs of the
  next row, but the whole next row, blanks included, is appended and then
  cut to `maxX` cells (`GridFacts.DeleteForwardDropsGlyph`).
- Backspace at column 0 can lose glyphs. Row y-1 is cut at column `p`,
  its glyph count capped at `maxX`, so every glyph of that row at or after
  column `p` (one after a blank, or one in column `maxX`) is dropped
  (`GridFacts.BackspaceJoinDropsGlyph`).
- `_insert_chr` at a column equal to the row length inserts and pops the
  same cell, so it changes nothing. `_delete_chr` there raises
  `IndexError`, which the model returns as an error outcome with the state
  unchanged.
- C-o keeps the cursor column.
- Backspace at (0,0) deletes row 0.
- C-k at column 0 deletes the row.
- The strings are Python 2 byte strings, so `rstrip` strips ASCII
  whitespace (space and codes 9 to 13).

## Model

| member | source | states |
|---|---|---|
| Rows.NonBlank | src/Multimail/editor.py:140 | the filtered row is no longer than the row, holds only glyphs, and is empty exactly when every cell is blank |
| Rows.ShiftIn | src/Multimail/editor.py:144-148 | `insert` then `pop`: the length is kept, cells left of x stay, x holds the new cell, and the cells from x move one right with the last dropped; at or past the end the row is unchanged |
| Rows.ShiftOut | src/Multimail/editor.py:164-168 | `pop(x)` then `append('')`: the length is kept, cells left of x stay, the cells after x move one left, and the last cell is blank |
| Rows.FillIsFit | src/Multimail/editor.py:138-142 | `_fill` as written (count glyphs, extend by `maxX` minus the count, delete from `maxX`) equals cutting or blank-padding the row to exactly `maxX` cells |
| Rows.ShiftOutShiftIn | src/Multimail/editor.py:144-168 | inserting at x < len and then deleting at x gives the row back exactly when its last cell was blank |
| Rows.ShiftInShiftOut | src/Multimail/editor.py:144-168 | deleting at x and then inserting the removed cell at x always gives the row back |
| Keys.Utf8Decode2 | src/Multimail/editor.py:214-216 | a lead 0xC2..0xDF and a continuation byte decode to a code point in 0x80..0x7FF |
| Keys.Utf8DecodeEncode | src/Multimail/editor.py:214-216 | encoding a code point in 0x80..0x7FF as two bytes and decoding them gives it back |
| Keys.Utf8EncodeDecode | src/Multimail/editor.py:214-216 | decoding a valid two-byte sequence and encoding the result gives back the same two bytes |
| Keys.EscapeKey | src/Multimail/editor.py:260-311 | an escape sequence takes 3 codes, or 4 exactly for `ESC [ 3`, `ESC [ 5` and `ESC [ 6` |
| Keys.Decode | src/Multimail/editor.py:206-326 | a decoded key uses between 1 and 4 codes, never more than remain; the decoder needs more input exactly when the codes end before a two-byte character or an escape sequence is complete |
| Keys.Encode | src/Multimail/editor.py:206-326 | every key has a code sequence of 1 to 4 codes |
| Keys.DecodeEncode | src/Multimail/editor.py:206-326 | decoding a key's code sequence, whatever follows it, gives that key and uses exactly that sequence |
| Keys.DecodeIgnoresRest | src/Multimail/editor.py:206-326 | the decoder reads no code past those of the key it returns |
| Keys.PrintableTakesOne | src/Multimail/editor.py:207-213 | a code 32..126 is one key: that character |
| Keys.ControlTakesOne | src/Multimail/editor.py:222-326 | every other code that is not a lead byte or escape is one key of one code, and each key is matched by exactly the codes the source lists (CR/LF/KEY_ENTER, C-h/DEL/KEY_SDC, C-d/KEY_CANCEL, C-k/KEY_EOL, C-u, C-o, C-g/KEY_END/KEY_EXIT); every other such code is an unrecognized key, which beeps |
| Keys.LeadTakesTwo | src/Multimail/editor.py:214-221 | a lead byte 194..223 takes two codes, and gives a character exactly when the second is a continuation byte |
| Keys.EscapeTakesThreeOrFour | src/Multimail/editor.py:260-311 | escape takes 3 codes, or 4 after `[ 3`, `[ 5`, `[ 6`; it beeps exactly for an unknown `ESC [ x` or an `ESC y x` with y neither `O` nor `[`, and an unknown `ESC O x` does nothing; `O H` is Home, `O F` End, `[ 3` delete-forward, `[ 5` page up, `[ 6` page down and `[ A`..`[ D` up, down, right and left, exactly, whatever fourth code follows |
| Grid.Fresh | src/Multimail/editor.py:108-116 | the initial state is valid: maxY+1 rows of maxX+1 blanks, the cursor at the origin and an empty buffer |
| Grid.InsertLine | src/Multimail/editor.py:133-136 | the row count is kept; the line goes in at the cursor row, the rows below move down one and the last is dropped |
| Grid.FillRow | src/Multimail/editor.py:138-142 | the filled row has exactly maxX cells, keeps its first maxX cells in place, and no other row changes |
| Grid.InsertChr | src/Multimail/editor.py:144-148 | only the cursor row changes, and its length is kept |
| Grid.DeleteChr | src/Multimail/editor.py:164-168 | fails with `IndexError` exactly when the cursor is at or past the row's end; otherwise only the cursor row changes, and its length is kept |
| Grid.CancelBack | src/Multimail/editor.py:150-162 | fails exactly when `_delete_chr` does; otherwise the state stays valid and only the table changes |
| Grid.DeleteLine | src/Multimail/editor.py:170-173 | the rows below the cursor move up one and a fresh blank row is appended |
| Grid.CutUntilEol | src/Multimail/editor.py:175-181 | the buffer becomes the cells from x through maxX; the row keeps its first x cells followed by blanks, maxX cells in all; no other row changes |
| Grid.Paste | src/Multimail/editor.py:183-191 | the glyphs of the buffer go in at x, the row is fitted to maxX cells, and the cursor moves right by their number, capped at maxX |
| Grid.GotoMax | src/Multimail/editor.py:193-198 | the cursor goes to the given row; the column only goes down, to at most that row's glyph count |
| Grid.TypeChar | src/Multimail/editor.py:207-221 | the character is inserted, then the cursor moves right, or to the next row's start from column maxX, or stays on the last cell |
| Grid.BreakLine | src/Multimail/editor.py:222-234 | Enter keeps the state valid |
| Grid.SplitLine | src/Multimail/editor.py:224-230 | the state stays valid and the cursor ends at the start of the row below |
| Grid.JoinAbove | src/Multimail/editor.py:238-255 | the backspace join keeps the state valid and the buffer unchanged |
| Grid.DeleteBack | src/Multimail/editor.py:236-257 | backspace keeps the state valid and the buffer unchanged |
| Grid.CutLine | src/Multimail/editor.py:312-316 | C-k keeps the state valid and the cursor in place; right of column 0 it is exactly `_cut_until_eol` (`Grid.CutUntilEol`) |
| Grid.OpenLine | src/Multimail/editor.py:319-322 | C-o above the last row inserts a blank row of maxX+1 cells below the cursor, drops the last row and moves the cursor down one, keeping its column and the buffer; on the last row it changes nothing |
| Grid.MoveRight | src/Multimail/editor.py:292-301 | only the cursor moves: one column right when x < maxX and x is below the row's glyph count, else to (y+1, 0) when y < maxY, else nowhere |
| Grid.MoveLeft | src/Multimail/editor.py:302-307 | only the cursor moves: one column left when x > 0, else from column 0 below row 0 to row y-1 at min(maxX, its glyph count), else nowhere |
| Grid.PageBack | src/Multimail/editor.py:272-278 | only the cursor moves: to row y-10 when that is greater than 0, else to row 0, at min(x, that row's glyph count) |
| Grid.PageForward | src/Multimail/editor.py:279-285 | only the cursor moves: to row y+10 when that is less than maxY, else to row maxY, at min(x, that row's glyph count) |
| Grid.Apply | src/Multimail/editor.py:206-326 | every key keeps the grid shape (maxY+1 rows of maxX or maxX+1 cells) and the cursor bounds; it fails exactly for delete-forward at or past the row's end; it goes on exactly when the key is not quit, beeps exactly for an unrecognized key, and quit, an ignored key and an unrecognized key change nothing |
| Grid.Run | src/Multimail/editor.py:118-126 | a session keeps the state valid whatever the codes |
| Text.RowText | src/Multimail/editor.py:343 | a row's text has one character per glyph, in order |
| Text.RStrip | src/Multimail/editor.py:344 | the result is the longest prefix that does not end in whitespace |
| Text.SaveText | src/Multimail/editor.py:341-344 | the saved text is a prefix of the joined rows, never ends in whitespace, and only whitespace is stripped |
| Text.RowTextOfGlyphs | src/Multimail/editor.py:343 | a row's text depends only on its glyphs |
| Text.JoinEmptyLines | src/Multimail/editor.py:343 | empty lines join to newlines only |
| Text.BlankGridSavesEmpty | src/Multimail/editor.py:341-344 | a grid without glyphs, such as a fresh one, saves as the empty string |
| GridFacts.InsertThenDelete | src/Multimail/editor.py:144-168 | at x < len the insert-then-delete succeeds, and gives the state back exactly when the cell pushed off the edge was blank |
| GridFacts.InsertAtShortenedEnd | src/Multimail/editor.py:138-168 | at column maxX of a row `_fill` shortened, inserting changes nothing and deleting raises `IndexError` |
| GridFacts.CutRow | src/Multimail/editor.py:175-181 | `_cut_until_eol` leaves the cells before the cursor followed by blanks, and the buffer holds the rest of the row |
| GridFacts.CutThenPaste | src/Multimail/editor.py:175-191 | `_cut_until_eol` then `_paste` at the same column (the keys C-k then C-u right of column 0): the buffer holds the cut cells and is not cleared; the row becomes its cells before x plus the cut glyphs, fitted to maxX; the cursor ends at min(x + k, maxX); no other row changes |
| GridFacts.CutThenPasteRow | src/Multimail/editor.py:175-191 | the row after `_cut_until_eol` then `_paste` |
| GridFacts.CutThenPasteCursor | src/Multimail/editor.py:175-191 | the buffer, the cursor and the other rows after `_cut_until_eol` then `_paste` |
| GridFacts.CutThenPasteOthers | src/Multimail/editor.py:175-191 | `_cut_until_eol` then `_paste` changes no row but the cursor row |
| GridFacts.CutThenPasteCompact | src/Multimail/editor.py:175-191 | when no glyph of the cut tail follows a blank, `_cut_until_eol` then `_paste` gives the row back cut to maxX cells |
| GridFacts.PasteIntoBlankRow | src/Multimail/editor.py:183-191 | pasting at the start of a fresh row gives the pasted glyphs fitted to maxX |
| GridFacts.EnterSplitsLine | src/Multimail/editor.py:222-230 | Enter above the last row with glyphs right of the cursor: the row keeps its cells before x then blanks; the tail's glyphs start the new row below; the rows above stay; the rows below move down one; the cursor goes to (y+1, 0); the buffer holds the tail |
| GridFacts.SplitLineRows | src/Multimail/editor.py:224-230 | the two rows and the buffer that splitting a line leaves |
| GridFacts.SplitLineMoves | src/Multimail/editor.py:224-230 | splitting a line keeps the rows above and moves the rows below down one |
| GridFacts.EnterOpensLine | src/Multimail/editor.py:222-234 | Enter with only blanks right of the cursor inserts a blank row below and moves to its start; Enter on the last row changes nothing |
| GridFacts.DeleteForwardMerges | src/Multimail/editor.py:150-168 | delete-forward fails exactly past the row's end; otherwise it merges the next row exactly when y < maxY, only blanks follow the removed cell, and the next row has fewer than maxX - x + 1 glyphs; the merged row is fitted to maxX and a blank row is appended; without a merge the row is the shifted row; the cursor and buffer stay |
| GridFacts.BackspaceJoinCursor | src/Multimail/editor.py:238-255 | backspace at column 0 below row 0 moves to row y-1, at column min(maxX, its glyph count), keeping the rows above and the cells before the cursor |
| GridFacts.BackspaceJoinFits | src/Multimail/editor.py:245-249 | when the glyphs fit, they are all appended after the cursor, the row is padded to maxX, the rows below move up one and a blank row is appended |
| GridFacts.SplitKeepsGlyphs | src/Multimail/editor.py:250-255 | splitting glyphs in two and fitting the second part loses none |
| GridFacts.JoinAboveSpills | src/Multimail/editor.py:250-255 | when the glyphs overflow, `maxX - p + 1` of them go after the cursor, the rest fitted to maxX replace row y, and the rows below stay |
| GridFacts.BackspaceJoinSplits | src/Multimail/editor.py:250-255 | in the overflow case every glyph of row y survives, in order |
| GridFacts.BackspaceElsewhere | src/Multimail/editor.py:236-257 | backspace at the origin deletes row 0; right of column 0 it removes the cell to the left and steps onto it |
| GridFacts.CutAtColumnZeroDeletesRow | src/Multimail/editor.py:312-316 | C-k at column 0 puts the whole row in the buffer, moves the rows below up and appends a blank row |
| GridFacts.GotoMaxIsMin | src/Multimail/editor.py:193-198 | `_goto_max(line)` puts the cursor on that row at min(x, its glyph count) |
| GridFacts.UpKeyMoves | src/Multimail/editor.py:286-288 | Up moves to row y-1 at min(x, its glyph count) when y > 0 and does nothing on row 0; table and buffer stay |
| GridFacts.DownKeyMoves | src/Multimail/editor.py:289-291 | Down moves to row y+1 at min(x, its glyph count) when y < maxY and does nothing on row maxY; table and buffer stay |
| GridFacts.HomeEndKeysMove | src/Multimail/editor.py:264-267 | Home moves to (0, 0); End moves to row maxY at min(x, its glyph count); table and buffer stay |
| GridFacts.DeleteForwardDropsGlyph | src/Multimail/editor.py:153-162 | with maxX 4, C-d on `d` of `abcd` above a row whose only glyph `e` is in column 4 leaves `abc` and a blank row: `e` is lost |
| GridFacts.BackspaceJoinDropsGlyph | src/Multimail/editor.py:239-255 | with maxX 2, backspace at the start of `de` below `abc` leaves `abd` over `e`, with the cursor at (0, 2): `c` is lost |
| GridFacts.RunContinues | src/Multimail/editor.py:118-126 | a key that neither quits nor fails hands the rest of the codes to the new state |
| GridFacts.TypeTwoLines | src/Multimail/editor.py:118-126 | on a 3 by 5 grid, typing `h`, `i`, CR, `x` and C-g quits and saves `"hi\nx"` |
| GridFacts.TypeTwoLinesSteps | src/Multimail/editor.py:118-126 | the grid that session leaves |
| GridFacts.TwoLinesSaveText | src/Multimail/editor.py:341-344 | that grid saves as `"hi\nx"` |
| Editors.Editor.constructor | src/Multimail/editor.py:98-116 | the fresh editor's model is `Grid.Fresh(rows-1, cols-1)`, and it saves as the empty string |
| Editors.Editor.InsertLine | src/Multimail/editor.py:133-136 | the in-place `insert` and `pop` leave the state `Grid.InsertLine` gives |
| Editors.Editor.Fill | src/Multimail/editor.py:138-142 | the in-place `extend` and `del` leave `Grid.FillRow` |
| Editors.Editor.InsertChr | src/Multimail/editor.py:144-148 | leaves `Grid.InsertChr` |
| Editors.Editor.DeleteChr | src/Multimail/editor.py:164-168 | reports the `IndexError` exactly when `Grid.DeleteChr` fails, and leaves its state otherwise |
| Editors.Editor.CancelBack | src/Multimail/editor.py:150-162 | reports failure exactly when `Grid.CancelBack` fails, and leaves its state otherwise |
| Editors.Editor.MergeNext | src/Multimail/editor.py:157-162 | the merge branch of `_cancel_back` leaves the merged row, with the next row removed and a blank row appended |
| Editors.Editor.DeleteLine | src/Multimail/editor.py:170-173 | leaves `Grid.DeleteLine` |
| Editors.Editor.CutUntilEol | src/Multimail/editor.py:175-181 | leaves `Grid.CutUntilEol` |
| Editors.Editor.Paste | src/Multimail/editor.py:183-191 | the insert loop, the fill and the clamp leave `Grid.Paste` |
| Editors.Editor.GotoMax | src/Multimail/editor.py:193-198 | leaves `Grid.GotoMax` |
| Editors.Editor.JoinAbove | src/Multimail/editor.py:238-255 | the backspace join leaves `Grid.JoinAbove` |
| Editors.Editor.AppendBelow | src/Multimail/editor.py:245-249 | the join branch where the glyphs fit |
| Editors.Editor.SpillBelow | src/Multimail/editor.py:250-255 | the join branch where they overflow |
| Editors.Editor.TypeChar | src/Multimail/editor.py:207-221 | leaves `Grid.TypeChar` |
| Editors.Editor.BreakLine | src/Multimail/editor.py:222-234 | leaves `Grid.BreakLine` |
| Editors.Editor.SplitLine | src/Multimail/editor.py:224-230 | leaves `Grid.SplitLine` |
| Editors.Editor.CutAndOpen | src/Multimail/editor.py:224-228 | cuts the tail and inserts a blank row at the start of the row below |
| Editors.Editor.DeleteBack | src/Multimail/editor.py:236-257 | leaves `Grid.DeleteBack` |
| Editors.Editor.CutLine | src/Multimail/editor.py:312-316 | leaves `Grid.CutLine` |
| Editors.Editor.OpenLine | src/Multimail/editor.py:319-322 | leaves `Grid.OpenLine` |
| Editors.Editor.MoveRight | src/Multimail/editor.py:292-301 | leaves `Grid.MoveRight` |
| Editors.Editor.MoveLeft | src/Multimail/editor.py:302-307 | leaves `Grid.MoveLeft` |
| Editors.Editor.PageBack | src/Multimail/editor.py:272-278 | leaves `Grid.PageBack` |
| Editors.Editor.PageForward | src/Multimail/editor.py:279-285 | leaves `Grid.PageForward` |
| Editors.Editor.Dispatch | src/Multimail/editor.py:206-326 | a decoded key reports what `Grid.Apply` gives (handled with its go-on and beep flags, or the fault) and leaves its state; a fault changes nothing |
| Editors.Editor.EditKey | src/Multimail/editor.py:207-257 | the keys that change the table (other than delete-forward) leave the state `Grid.Apply` gives |
| Editors.Editor.MoveKey | src/Multimail/editor.py:260-307 | the keys that only move the cursor leave the state `Grid.Apply` gives |
| Editors.Editor.StepKey | src/Multimail/editor.py:272-307 | the page and arrow keys leave the state `Grid.Apply` gives |
| Editors.Editor.GetChr | src/Multimail/editor.py:200-328 | reads exactly the codes `Keys.Decode` uses (all of them when they run out inside a key); a malformed character fails with the state unchanged; a complete key acts as `Grid.Apply` says |
| Editors.Editor.Edit | src/Multimail/editor.py:118-126 | the final state and the ending (quit, fault, or end of codes) are those `Grid.Run` gives for the codes not yet read; the codes themselves are not changed |

## Left out

- Terminal handling is not modelled: `setupterm`, `initscr` and `newwin` in `__init__`, `_update_win`, `quit_curses`, and the `move`, `noecho`, `refresh` and `beep` calls in `_get_chr`. The beep is the `beep` flag of a handled key.
- `_scan` is reads from a finite code sequence. A blocking read has no end, so the model ends the session with `OutOfInput` when the codes run out inside or before a key. The state is then unchanged, because the source reads every code of a key before it changes anything.
- The `KeyboardInterrupt` handler in `edit` is left out; a signal is not an input code.
- `use_curses_editor` (locale, exception catch-all), `no_curses` (stream I/O), `use_ext_editor` (subprocess and temporary file) and `_write_chr_test` (a debug decorator writing a file) are left out, because each is I/O.
- The `or c == curses.KEY_*` disjuncts inside the escape branch are left out: `c` is 27 there, so they never hold.
- The encoding is UTF-8 throughout. Cells are abstract characters, so `.encode` in `save_text` and `_update_win` is the identity here, and only the decode of the two-byte branch is modelled. Other locale encodings are not modelled.
- The window must have at least one row and one column. `getmaxyx` never reports less, so that is the constructor's precondition.
- `Editors.Editor.SaveText` only reads the table through `Text.SaveText`; its properties are stated on `Text.SaveText`.
- Code values are unbounded integers. A code outside 0..255 after a lead byte is the `chr` error of the source; any other unknown code is a beep.
- The rest of the repository (message building, SMTP sending, archives, configuration and option parsing, tests) is not part of this model.
