# A verified model of a terminal text editor's buffer

The editor keeps one document in memory as a list of lines, each a list of
runes, with a cursor `(cursorX, cursorY)` — column and row — and two history
stacks of whole-document snapshots for undo and redo. Its key loop edits the
document in place: a printable key inserts a rune, Enter splits the line at
the cursor, Backspace deletes the rune before the cursor or joins the line to
the one above, the arrows move the cursor, Ctrl+O reloads the file, Ctrl+Z and
Ctrl+Y walk the history, and Ctrl+S writes every line followed by a newline.
Every edit that changes the document first pushes a deep copy of it onto
the undo stack and clears the redo stack; Backspace at the very start of the
document and a key event that carries no rune change nothing and record
nothing. A search function lists every start of a
query in every line, overlapping occurrences included.

The project has four modules:

- `Lines` (`lines.dfy`) — the document type, the save format (`Serialize`),
  the line scanner that reads a file back (`ScanLines`), loading with the
  empty-file rule (`Load`), the save and load loops, and the deep copy used
  for snapshots. Loading a saved document is proved to give it back, for
  documents whose lines hold no newline and do not end in a carriage return.
- `Search` (`search.dfy`) — the substring index, a recursive specification
  of all matches (`AllMatches`), and the nested search loop proved equal to it,
  sorted in row-major order and holding exactly the occurrences.
- `Buffer` (`buffer.dfy`) — the editor state as a value (`Session`) with one
  function per key, the invariant every key keeps (`Valid`: at least one line,
  cursor on a line and at most one past its end, no empty snapshot), and the
  lemmas: undo/redo inverse to each other, undo after an edit restoring the
  previous text, typing/Enter undone by Backspace, and a flat view in which
  every key acts on the saved file at the cursor's offset like an editor on
  one string.
- `Editor` (`editor.dfy`) — the key loop's state as a class whose methods
  change the fields in place as the case bodies do, each proved to produce
  exactly the state that the corresponding `Buffer` function computes.

Go's slices are modelled as Dafny sequences (values). The source takes a deep
copy before every destructive update of a line, so no two live slices share
storage in a way that an update could observe; the value model therefore
gives the same results.

## Model

| member | source | states |
|---|---|---|
| Lines.SaveToFile | main.go:217-223 | the written characters are exactly `Serialize(t)`: every line in order, each followed by one newline |
| Lines.SerializeLength | main.go:217-218 | the saved file is at least one character per line long, and each line adds its length plus one |
| Lines.SerializeNewlines | main.go:217-218 | when no line holds a newline, the saved file holds exactly one newline per line |
| Lines.SaveThreeLines | main.go:217-218 | the lines "x", "" and "y" are saved as `x\n\ny\n`: an empty line is still written as its own record |
| Lines.SerializeAppend | main.go:217-218 | saving a document split in two gives the two saved files one after the other |
| Lines.SerializeAt | main.go:217-218 | the saved file is the lines above row y, line y and its newline, then the lines below |
| Lines.InsertAt | main.go:182 | inserting a rune at column x of line y inserts it into the saved file at that column's offset (the length of the saved lines above, plus x), lines above untouched |
| Lines.SplitAt | main.go:86-90 | splitting line y at column x inserts one newline into the saved file at that offset |
| Lines.DeleteAt | main.go:95-96 | removing the rune before column x of line y removes one character of the saved file, the one before that offset |
| Lines.JoinAt | main.go:100-102 | joining line y onto line y - 1 removes from the saved file exactly the newline that ended line y - 1 |
| Lines.NewlineFrom | main.go:237 | the scanner's end of a token: the first newline at or after k, or the end of the input, with no newline skipped |
| Lines.DropCR | main.go:238 | a scanned line loses one trailing carriage return exactly when it ends in one, and is otherwise kept |
| Lines.ScanLines | main.go:236-239 | the scanner yields no line exactly when the input is empty |
| Lines.ScanSerialized | main.go:217-239 | scanning a saved file gives back the document, for lines without newline and without trailing carriage return |
| Lines.Normalize | main.go:240-242 | a document that scanned to no lines becomes one empty line; any other is kept as scanned |
| Lines.Load | main.go:228-244 | a failed open or scanner error gives no document (both directions); a successful read always gives at least one line |
| Lines.LoadSaved | main.go:209-244 | loading the file the editor saved gives back the same non-empty document |
| Lines.LoadFromFile | main.go:235-243 | the loop that scans one line per round and appends it, with the empty-file rule, computes exactly `Load(outcome)` |
| Lines.CloneLine | main.go:203 | the rune-by-rune copy of a line equals the line |
| Lines.CloneText | main.go:200-206 | the deep copy of a document equals the document, line for line |
| Search.Index | main.go:252 | the result is -1 or a column where the query occurs |
| Search.IndexFirst | main.go:252 | no occurrence lies before the result, and none at all when the result is -1: it is the first occurrence |
| Search.AllMatchesExactly | main.go:246-261 | a match is listed if and only if its row is a row of the document and the query occurs in that line at its column |
| Search.AllMatchesSorted | main.go:246-261 | the matches are strictly increasing in row-major order, so none is listed twice |
| Search.OverlappingMatches | main.go:252-257 | resuming one column after each match reports overlapping occurrences: "aa" in "aaa" at columns 0 and 1 |
| Search.ScanLine | main.go:250-258 | the inner loop appends exactly the matches of line y, in column order |
| Search.SearchInText | main.go:246-261 | the results equal the specification `AllMatches`, hold exactly the occurrences, and are sorted row-major |
| Buffer.SaveUndo | main.go:193-197 | one snapshot of the current text is pushed, the redo stack is emptied, text and cursor are kept |
| Buffer.TypeRune | main.go:177-184 | a key without a rune changes nothing; otherwise the edit is recorded, the rune is inserted into the cursor's line at the cursor, every other line is kept, and the cursor moves past it |
| Buffer.Enter | main.go:84-91 | the edit is recorded; line y is replaced by its part before the cursor and its part from the cursor on, the other lines are kept, cursor at the start of the new line |
| Buffer.Backspace | main.go:92-105 | at the document start nothing changes and nothing is recorded; inside a line the rune before the cursor goes and every other line is kept; at a line start the line joins the one above, the lines above and below are kept, and the cursor lands at the old end of that line |
| Buffer.Left | main.go:106-112 | only the cursor moves: one rune back within the line, to the end of the line above from a line start, nowhere from the document start |
| Buffer.Right | main.go:113-119 | only the cursor moves: one rune on within the line, to the start of the line below from a line end, nowhere from the end of the last line |
| Buffer.Clamp | main.go:120-133 | the column kept on the new row is the old column or the row's length, whichever is smaller |
| Buffer.Up | main.go:120-126 | on the first row nothing changes; otherwise one row up at the clamped column, nothing else changes |
| Buffer.Down | main.go:127-133 | on the last row nothing changes; otherwise one row down at the clamped column, nothing else changes |
| Buffer.Reload | main.go:136-146 | a failed read changes nothing; a successful one is a recorded edit that puts the loaded document in place with the cursor at the start |
| Buffer.Undo | main.go:147-155 | with an empty undo stack nothing changes; otherwise the top snapshot becomes the text, the old text goes onto the redo stack, the cursor goes to the start |
| Buffer.Redo | main.go:156-164 | the mirror image of Undo between the two stacks |
| Buffer.UndoThenRedo | main.go:147-164 | Redo right after Undo restores text and both stacks |
| Buffer.RedoThenUndo | main.go:147-164 | Undo right after Redo restores text and both stacks |
| Buffer.UndoAfterEdit | main.go:147-197 | after any recorded edit, Undo restores the text and undo stack from before it, and Redo does nothing |
| Buffer.TypeThenBackspace | main.go:92-184 | typing a rune and then Backspace gives back the text and cursor |
| Buffer.EnterThenBackspace | main.go:84-105 | Enter and then Backspace give back the text and cursor |
| Buffer.SplitJoinUndoSession | main.go:84-155 | "ab"/"cd" with the cursor after "ab": Enter, Backspace, Undo, Undo each give the stated whole state (text, cursor, both stacks), ending with both edits on the redo stack |
| Buffer.PositionBounds | main.go:106-119 | the cursor's offset in the saved file is within it; it is 0 exactly at the document start and on the last newline exactly at the end of the last line |
| Buffer.TypeRuneAtCursor | main.go:177-184 | typing inserts the rune into the saved file at the cursor's offset, and the offset advances by one |
| Buffer.EnterAtCursor | main.go:84-91 | Enter inserts a newline into the saved file at the cursor's offset, and the offset advances by one |
| Buffer.BackspaceAtCursor | main.go:92-105 | Backspace deletes the character before the cursor's offset in the saved file and the offset goes back by one; at offset 0 nothing happens |
| Buffer.LeftAtCursor | main.go:106-112 | Left moves the offset back one character of the saved file, except at offset 0 |
| Buffer.RightAtCursor | main.go:113-119 | Right moves the offset on one character of the saved file, except from the final newline |
| Editor.Editor.constructor | main.go:38-44 | the editor starts on the loaded document, or one empty line when the read failed, cursor at the start, no history |
| Editor.Editor.SaveUndo | main.go:193-197 | the new state is `Buffer.SaveUndo` of the old one: a deep copy pushed, redo cleared |
| Editor.Editor.TypeRune | main.go:177-184 | the in-place update yields `Buffer.TypeRune` of the old state |
| Editor.Editor.Enter | main.go:84-91 | the in-place update yields `Buffer.Enter` of the old state |
| Editor.Editor.Backspace | main.go:92-105 | the in-place update yields `Buffer.Backspace` of the old state |
| Editor.Editor.Left | main.go:106-112 | the in-place update yields `Buffer.Left` of the old state |
| Editor.Editor.Right | main.go:113-119 | the in-place update yields `Buffer.Right` of the old state |
| Editor.Editor.Up | main.go:120-126 | the in-place update yields `Buffer.Up` of the old state |
| Editor.Editor.Down | main.go:127-133 | the in-place update yields `Buffer.Down` of the old state |
| Editor.Editor.Reload | main.go:136-146 | the in-place update yields `Buffer.Reload` of the old state |
| Editor.Editor.Undo | main.go:147-155 | the in-place update yields `Buffer.Undo` of the old state, the current text stored as a deep copy |
| Editor.Editor.Redo | main.go:156-164 | the in-place update yields `Buffer.Redo` of the old state, the current text stored as a deep copy |

## Left out

- The screen: drawing lines and the status bar, showing the cursor, polling events and resize handling (main.go:29-36, 47-78, 186-188) are I/O through the terminal library and are not modelled.
- Vertical scrolling (`offsetY`) only decides which lines are drawn; it never changes the document, the cursor or the history, so the model drops it.
- Key dispatch: which terminal key reaches which case is the terminal library's business; each case body is a method, and the Escape key just leaves the loop.
- File I/O: opening, creating, writing and closing files and the log messages are left out. A read is a `ReadOutcome` parameter — the file's content, or a failure standing for a failed open or a scanner error — and `SaveToFile` returns the characters it would write; a write error that stops saving part-way is not modelled.
- Lines.ScanLines: the line scanner's 64 KiB token limit (which ends the scan with an error) and the replacement of invalid UTF-8 by U+FFFD when bytes become runes are not modelled; the content is already a sequence of runes.
- Search.SearchInText: requires a non-empty query. With an empty query the source's index is always 0, the scan steps one past the end of the line and slicing there fails at run time; its only caller checks for a non-empty query first. An empty query is not given a meaning of its own, such as no matches.
- Search.Index: works on runes. The source's substring index returns byte offsets into the UTF-8 form of the line; the two agree only on lines of one-byte runes.
- The search key (Ctrl+F) builds an always-empty query, so its body never runs a search or moves the cursor; it is left out, as are the unused search globals.
- The `IndexOf` helper at the end of the file is never called and is not modelled.
- The command line (a missing file name prints a usage line and exits) is not modelled.
