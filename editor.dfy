/** The editor's state as the key loop changes it in place: the document, the
    cursor and the two history stacks, with one method per key. Each method is
    tied to the function of the same name in Buffer, about which the
    properties are proved. */
module Editor {
  import opened Lines
  import Buffer

  class Editor {
    var text: Text
    var cursorX: int
    var cursorY: int
    var undoStack: seq<Text>
    var redoStack: seq<Text>

    /** The fields as one value. */
    function State(): Buffer.Session
      reads this
    {
      Buffer.Session(text, cursorX, cursorY, undoStack, redoStack)
    }

    ghost predicate Valid()
      reads this
    {
      Buffer.Valid(State())
    }

    /** Start-up: the file's lines, or one empty line when it could not be
        read; cursor at the start, no history. */
    constructor (outcome: ReadOutcome)
      ensures Valid()
      ensures Load(outcome).Some? ==> text == Load(outcome).value
      ensures Load(outcome).None? ==> text == [[]]
      ensures cursorX == 0 && cursorY == 0 && undoStack == [] && redoStack == []
    {
      var loaded := LoadFromFile(outcome);
      text := if loaded.Some? then loaded.value else [[]];
      cursorX, cursorY := 0, 0;
      undoStack, redoStack := [], [];
    }

    /** Push a deep copy of the text onto the undo stack and clear the redo stack. */
    method SaveUndo()
      requires Valid()
      modifies this
      ensures Valid() && State() == Buffer.SaveUndo(old(State()))
      ensures undoStack == old(undoStack) + [old(text)] && redoStack == []
      ensures text == old(text) && cursorX == old(cursorX) && cursorY == old(cursorY)
    {
      var snapshot := CloneText(text);
      undoStack := undoStack + [snapshot];
      redoStack := [];
    }

    /** A key that carries rune c: insert it at the cursor. */
    method TypeRune(c: char)
      requires Valid()
      modifies this
      ensures Valid() && State() == Buffer.TypeRune(old(State()), c)
      ensures c == '\0' ==> unchanged(this)
      ensures c != '\0' ==>
        text == old(text[cursorY := text[cursorY][..cursorX] + [c] + text[cursorY][cursorX..]]) &&
        cursorX == old(cursorX) + 1 && cursorY == old(cursorY) &&
        undoStack == old(undoStack) + [old(text)] && redoStack == []
    {
      if c != '\0' {
        SaveUndo();
        var line := text[cursorY];
        text := text[cursorY := line[..cursorX] + [c] + line[cursorX..]];
        cursorX := cursorX + 1;
      }
    }

    /** Enter: split the line at the cursor. */
    method Enter()
      requires Valid()
      modifies this
      ensures Valid() && State() == Buffer.Enter(old(State()))
      ensures text == old(text[..cursorY] + [text[cursorY][..cursorX], text[cursorY][cursorX..]] + text[cursorY + 1..])
      ensures cursorX == 0 && cursorY == old(cursorY) + 1
      ensures undoStack == old(undoStack) + [old(text)] && redoStack == []
    {
      SaveUndo();
      var currentLine := text[cursorY];
      var newLine := currentLine[cursorX..];
      text := text[cursorY := currentLine[..cursorX]];
      cursorY := cursorY + 1;
      text := text[..cursorY] + [newLine] + text[cursorY..];
      cursorX := 0;
    }

    /** Backspace: delete the rune before the cursor, or join the line to the one above. */
    method Backspace()
      requires Valid()
      modifies this
      ensures Valid() && State() == Buffer.Backspace(old(State()))
      ensures old(cursorX == 0 && cursorY == 0) ==> unchanged(this)
      ensures old(cursorX > 0) ==>
        text == old(text[cursorY := text[cursorY][..cursorX - 1] + text[cursorY][cursorX..]]) &&
        cursorX == old(cursorX) - 1 && cursorY == old(cursorY)
      ensures old(cursorX == 0 && cursorY > 0) ==>
        text == old(text[..cursorY - 1] + [text[cursorY - 1] + text[cursorY]] + text[cursorY + 1..]) &&
        cursorX == old(|text[cursorY - 1]|) && cursorY == old(cursorY) - 1
      ensures old(cursorX > 0 || cursorY > 0) ==> undoStack == old(undoStack) + [old(text)] && redoStack == []
    {
      if cursorX > 0 {
        SaveUndo();
        var line := text[cursorY];
        text := text[cursorY := line[..cursorX - 1] + line[cursorX..]];
        cursorX := cursorX - 1;
      } else if cursorY > 0 {
        SaveUndo();
        var prevLineLen := |text[cursorY - 1]|;
        text := text[cursorY - 1 := text[cursorY - 1] + text[cursorY]];
        text := text[..cursorY] + text[cursorY + 1..];
        cursorY := cursorY - 1;
        cursorX := prevLineLen;
      }
    }

    /** Left arrow. */
    method Left()
      requires Valid()
      modifies this
      ensures Valid() && State() == Buffer.Left(old(State()))
      ensures text == old(text) && undoStack == old(undoStack) && redoStack == old(redoStack)
    {
      if cursorX > 0 {
        cursorX := cursorX - 1;
      } else if cursorY > 0 {
        cursorY := cursorY - 1;
        cursorX := |text[cursorY]|;
      }
    }

    /** Right arrow. */
    method Right()
      requires Valid()
      modifies this
      ensures Valid() && State() == Buffer.Right(old(State()))
      ensures text == old(text) && undoStack == old(undoStack) && redoStack == old(redoStack)
    {
      if cursorX < |text[cursorY]| {
        cursorX := cursorX + 1;
      } else if cursorY + 1 < |text| {
        cursorY := cursorY + 1;
        cursorX := 0;
      }
    }

    /** Up arrow: the column is clamped to the length of the line above. */
    method Up()
      requires Valid()
      modifies this
      ensures Valid() && State() == Buffer.Up(old(State()))
      ensures text == old(text) && undoStack == old(undoStack) && redoStack == old(redoStack)
    {
      if cursorY > 0 {
        cursorY := cursorY - 1;
        if cursorX > |text[cursorY]| {
          cursorX := |text[cursorY]|;
        }
      }
    }

    /** Down arrow: the column is clamped to the length of the line below. */
    method Down()
      requires Valid()
      modifies this
      ensures Valid() && State() == Buffer.Down(old(State()))
      ensures text == old(text) && undoStack == old(undoStack) && redoStack == old(redoStack)
    {
      if cursorY + 1 < |text| {
        cursorY := cursorY + 1;
        if cursorX > |text[cursorY]| {
          cursorX := |text[cursorY]|;
        }
      }
    }

    /** Ctrl+O: reopen the file as an undoable edit; a failed read changes nothing. */
    method Reload(outcome: ReadOutcome)
      requires Valid()
      modifies this
      ensures Valid() && State() == Buffer.Reload(old(State()), outcome)
      ensures outcome.ReadFailed? ==> unchanged(this)
      ensures outcome.Read? ==>
        Some(text) == Load(outcome) && cursorX == 0 && cursorY == 0 &&
        undoStack == old(undoStack) + [old(text)] && redoStack == []
    {
      var loaded := LoadFromFile(outcome);
      if loaded.Some? {
        SaveUndo();
        text := loaded.value;
        cursorX := 0;
        cursorY := 0;
      }
    }

    /** Ctrl+Z: go back to the last snapshot, keeping the current text for redo. */
    method Undo()
      requires Valid()
      modifies this
      ensures Valid() && State() == Buffer.Undo(old(State()))
      ensures old(undoStack) == [] ==> unchanged(this)
      ensures old(undoStack) != [] ==>
        old(undoStack) == undoStack + [text] && redoStack == old(redoStack) + [old(text)] &&
        cursorX == 0 && cursorY == 0
    {
      if |undoStack| > 0 {
        var snapshot := CloneText(text);
        redoStack := redoStack + [snapshot];
        text := undoStack[|undoStack| - 1];
        undoStack := undoStack[..|undoStack| - 1];
        cursorX, cursorY := 0, 0;
      }
    }

    /** Ctrl+Y: go forward to the last undone text, keeping the current one for undo. */
    method Redo()
      requires Valid()
      modifies this
      ensures Valid() && State() == Buffer.Redo(old(State()))
      ensures old(redoStack) == [] ==> unchanged(this)
      ensures old(redoStack) != [] ==>
        old(redoStack) == redoStack + [text] && undoStack == old(undoStack) + [old(text)] &&
        cursorX == 0 && cursorY == 0
    {
      if |redoStack| > 0 {
        var snapshot := CloneText(text);
        undoStack := undoStack + [snapshot];
        text := redoStack[|redoStack| - 1];
        redoStack := redoStack[..|redoStack| - 1];
        cursorX, cursorY := 0, 0;
      }
    }
  }
}
