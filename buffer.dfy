/** The editing session as a value: the document, the cursor and the two
    history stacks, and one function per key the editor handles. The Editor
    class runs these same steps in place; the lemmas here are what the
    functions promise, one call or several. */
module Buffer {
  import opened Lines

  datatype Session = Session(
    text: Text,
    cursorX: int,
    cursorY: int,
    undoStack: seq<Text>,
    redoStack: seq<Text>)

  /** The document has at least one line, the cursor is on a line and at most
      one past its last rune, and every snapshot is itself a non-empty document. */
  predicate Valid(s: Session)
  {
    |s.text| >= 1 &&
    0 <= s.cursorY < |s.text| &&
    0 <= s.cursorX <= |s.text[s.cursorY]| &&
    (forall k :: 0 <= k < |s.undoStack| ==> |s.undoStack[k]| >= 1) &&
    (forall k :: 0 <= k < |s.redoStack| ==> |s.redoStack[k]| >= 1)
  }

  /** t came from s by an edit that recorded s's text: one snapshot pushed, redo cleared. */
  predicate Recorded(s: Session, t: Session)
  {
    t.undoStack == s.undoStack + [s.text] && t.redoStack == []
  }

  /** Push a copy of the current text onto the undo stack and clear the redo stack. */
  function SaveUndo(s: Session): (r: Session)
    requires Valid(s)
    ensures Valid(r) && Recorded(s, r)
    ensures r.text == s.text && r.cursorX == s.cursorX && r.cursorY == s.cursorY
  {
    s.(undoStack := s.undoStack + [s.text], redoStack := [])
  }

  /** A printable key: the rune goes in at the cursor, which moves past it.
      A key event that carries no rune changes nothing. */
  function TypeRune(s: Session, c: char): (r: Session)
    requires Valid(s)
    ensures Valid(r)
    ensures c == '\0' ==> r == s
    ensures c != '\0' ==> Recorded(s, r) && |r.text| == |s.text| && r.cursorY == s.cursorY
    ensures c != '\0' ==>
      r.cursorX == s.cursorX + 1 &&
      r.text[s.cursorY] == s.text[s.cursorY][..s.cursorX] + [c] + s.text[s.cursorY][s.cursorX..] &&
      forall k :: 0 <= k < |s.text| && k != s.cursorY ==> r.text[k] == s.text[k]
  {
    if c == '\0' then s
    else
      var l := s.text[s.cursorY];
      SaveUndo(s).(text := s.text[s.cursorY := l[..s.cursorX] + [c] + l[s.cursorX..]],
                   cursorX := s.cursorX + 1)
  }

  /** Enter: the line is split at the cursor and the cursor goes to the start of the new line. */
  function Enter(s: Session): (r: Session)
    requires Valid(s)
    ensures Valid(r) && Recorded(s, r)
    ensures |r.text| == |s.text| + 1
    ensures r.text[s.cursorY] == s.text[s.cursorY][..s.cursorX]
    ensures r.text[s.cursorY] + r.text[s.cursorY + 1] == s.text[s.cursorY]
    ensures r.text[..s.cursorY] == s.text[..s.cursorY] && r.text[s.cursorY + 2..] == s.text[s.cursorY + 1..]
    ensures r.cursorX == 0 && r.cursorY == s.cursorY + 1
  {
    var l := s.text[s.cursorY];
    SaveUndo(s).(text := s.text[..s.cursorY] + [l[..s.cursorX], l[s.cursorX..]] + s.text[s.cursorY + 1..],
                 cursorX := 0,
                 cursorY := s.cursorY + 1)
  }

  /** Backspace: inside a line the rune before the cursor goes; at the start
      of a line below the first, the line joins the one above; at the very
      start of the document nothing happens and no snapshot is taken. */
  function Backspace(s: Session): (r: Session)
    requires Valid(s)
    ensures Valid(r)
    ensures s.cursorX == 0 && s.cursorY == 0 ==> r == s
    ensures !(s.cursorX == 0 && s.cursorY == 0) ==> Recorded(s, r)
    ensures s.cursorX > 0 ==>
      |r.text| == |s.text| && r.cursorY == s.cursorY && r.cursorX == s.cursorX - 1 &&
      r.text[s.cursorY] == s.text[s.cursorY][..s.cursorX - 1] + s.text[s.cursorY][s.cursorX..] &&
      forall k :: 0 <= k < |s.text| && k != s.cursorY ==> r.text[k] == s.text[k]
    ensures s.cursorX == 0 && s.cursorY > 0 ==>
      |r.text| == |s.text| - 1 && r.cursorY == s.cursorY - 1 && r.cursorX == |s.text[s.cursorY - 1]| &&
      r.text[s.cursorY - 1] == s.text[s.cursorY - 1] + s.text[s.cursorY] &&
      r.text[..s.cursorY - 1] == s.text[..s.cursorY - 1] && r.text[s.cursorY..] == s.text[s.cursorY + 1..]
  {
    if s.cursorX > 0 then
      var l := s.text[s.cursorY];
      SaveUndo(s).(text := s.text[s.cursorY := l[..s.cursorX - 1] + l[s.cursorX..]],
                   cursorX := s.cursorX - 1)
    else if s.cursorY > 0 then
      var prevLen := |s.text[s.cursorY - 1]|;
      SaveUndo(s).(text := s.text[..s.cursorY - 1] + [s.text[s.cursorY - 1] + s.text[s.cursorY]] + s.text[s.cursorY + 1..],
                   cursorY := s.cursorY - 1,
                   cursorX := prevLen)
    else s
  }

  /** Only the cursor moved: text and both stacks are as they were. */
  predicate Moved(s: Session, r: Session)
  {
    r.text == s.text && r.undoStack == s.undoStack && r.redoStack == s.redoStack
  }

  /** Left arrow: one rune back, or to the end of the previous line from the start of a line. */
  function Left(s: Session): (r: Session)
    requires Valid(s)
    ensures Valid(r) && Moved(s, r)
    ensures s.cursorX > 0 ==> r.cursorX == s.cursorX - 1 && r.cursorY == s.cursorY
    ensures s.cursorX == 0 && s.cursorY > 0 ==> r.cursorY == s.cursorY - 1 && r.cursorX == |s.text[r.cursorY]|
    ensures s.cursorX == 0 && s.cursorY == 0 ==> r == s
  {
    if s.cursorX > 0 then s.(cursorX := s.cursorX - 1)
    else if s.cursorY > 0 then s.(cursorY := s.cursorY - 1, cursorX := |s.text[s.cursorY - 1]|)
    else s
  }

  /** Right arrow: one rune on, or to the start of the next line from the end of a line. */
  function Right(s: Session): (r: Session)
    requires Valid(s)
    ensures Valid(r) && Moved(s, r)
    ensures s.cursorX < |s.text[s.cursorY]| ==> r.cursorX == s.cursorX + 1 && r.cursorY == s.cursorY
    ensures s.cursorX == |s.text[s.cursorY]| && s.cursorY + 1 < |s.text| ==> r.cursorY == s.cursorY + 1 && r.cursorX == 0
    ensures s.cursorX == |s.text[s.cursorY]| && s.cursorY + 1 == |s.text| ==> r == s
  {
    if s.cursorX < |s.text[s.cursorY]| then s.(cursorX := s.cursorX + 1)
    else if s.cursorY + 1 < |s.text| then s.(cursorY := s.cursorY + 1, cursorX := 0)
    else s
  }

  /** The column kept when moving onto line `row`: the same one, or the end
      of that line if it is shorter. */
  function Clamp(s: Session, row: int): (x: int)
    requires Valid(s) && 0 <= row < |s.text|
    ensures 0 <= x <= |s.text[row]| && x <= s.cursorX
    ensures x == s.cursorX || x == |s.text[row]|
  {
    if s.cursorX > |s.text[row]| then |s.text[row]| else s.cursorX
  }

  /** Up arrow: the line above, if any, at the same column clamped to its length. */
  function Up(s: Session): (r: Session)
    requires Valid(s)
    ensures Valid(r) && Moved(s, r)
    ensures s.cursorY > 0 ==> r.cursorY == s.cursorY - 1 && r.cursorX == Clamp(s, s.cursorY - 1)
    ensures s.cursorY == 0 ==> r == s
  {
    if s.cursorY > 0 then s.(cursorY := s.cursorY - 1, cursorX := Clamp(s, s.cursorY - 1)) else s
  }

  /** Down arrow: the line below, if any, at the same column clamped to its length. */
  function Down(s: Session): (r: Session)
    requires Valid(s)
    ensures Valid(r) && Moved(s, r)
    ensures s.cursorY + 1 < |s.text| ==> r.cursorY == s.cursorY + 1 && r.cursorX == Clamp(s, s.cursorY + 1)
    ensures s.cursorY + 1 == |s.text| ==> r == s
  {
    if s.cursorY + 1 < |s.text| then s.(cursorY := s.cursorY + 1, cursorX := Clamp(s, s.cursorY + 1)) else s
  }

  /** Reopen the file: a successful read replaces the document as an undoable
      edit and puts the cursor at the start; a failed read changes nothing. */
  function Reload(s: Session, outcome: ReadOutcome): (r: Session)
    requires Valid(s)
    ensures Valid(r)
    ensures outcome.ReadFailed? ==> r == s
    ensures outcome.Read? ==>
      Recorded(s, r) && Some(r.text) == Load(outcome) && r.cursorX == 0 && r.cursorY == 0
  {
    match Load(outcome)
    case Some(t) => SaveUndo(s).(text := t, cursorX := 0, cursorY := 0)
    case None => s
  }

  /** Undo: with a snapshot to go back to, the current text goes onto the redo
      stack, the top snapshot becomes the text and the cursor goes to the start. */
  function Undo(s: Session): (r: Session)
    requires Valid(s)
    ensures Valid(r)
    ensures s.undoStack == [] ==> r == s
    ensures s.undoStack != [] ==>
      s.undoStack == r.undoStack + [r.text] && r.redoStack == s.redoStack + [s.text] &&
      r.cursorX == 0 && r.cursorY == 0
  {
    if |s.undoStack| > 0 then
      var n := |s.undoStack| - 1;
      s.(redoStack := s.redoStack + [s.text],
         text := s.undoStack[n],
         undoStack := s.undoStack[..n],
         cursorX := 0,
         cursorY := 0)
    else s
  }

  /** Redo: the mirror image of Undo, between the same two stacks. */
  function Redo(s: Session): (r: Session)
    requires Valid(s)
    ensures Valid(r)
    ensures s.redoStack == [] ==> r == s
    ensures s.redoStack != [] ==>
      s.redoStack == r.redoStack + [r.text] && r.undoStack == s.undoStack + [s.text] &&
      r.cursorX == 0 && r.cursorY == 0
  {
    if |s.redoStack| > 0 then
      var n := |s.redoStack| - 1;
      s.(undoStack := s.undoStack + [s.text],
         text := s.redoStack[n],
         redoStack := s.redoStack[..n],
         cursorX := 0,
         cursorY := 0)
    else s
  }

  // ---------------------------------------------------------------------------
  // History: undo and redo undo each other, and a new edit ends redo.

  /** Redo right after Undo gives back the text and both stacks. */
  lemma {:induction false} UndoThenRedo(s: Session)
    requires Valid(s) && s.undoStack != []
    ensures Redo(Undo(s)) == s.(cursorX := 0, cursorY := 0)
  {
    var n := |s.undoStack| - 1;
    assert s.undoStack[..n] + [s.undoStack[n]] == s.undoStack;
  }

  /** Undo right after Redo gives back the text and both stacks. */
  lemma {:induction false} RedoThenUndo(s: Session)
    requires Valid(s) && s.redoStack != []
    ensures Undo(Redo(s)) == s.(cursorX := 0, cursorY := 0)
  {
    var n := |s.redoStack| - 1;
    assert s.redoStack[..n] + [s.redoStack[n]] == s.redoStack;
  }

  /** After an edit, Undo brings back the text from before it, with the undo
      stack as it was then, and Redo is a no-op because the edit cleared it. */
  lemma {:induction false} UndoAfterEdit(s: Session, t: Session)
    requires Valid(s) && Valid(t) && Recorded(s, t)
    ensures Undo(t).text == s.text && Undo(t).undoStack == s.undoStack
    ensures Undo(t).redoStack == [t.text]
    ensures Redo(t) == t
  {
    assert (s.undoStack + [s.text])[..|s.undoStack|] == s.undoStack;
  }

  // ---------------------------------------------------------------------------
  // Round trips through the editing keys.

  /** Typing a rune and then Backspace leave the text and cursor as they were. */
  lemma {:induction false} TypeThenBackspace(s: Session, c: char)
    requires Valid(s) && c != '\0'
    ensures Backspace(TypeRune(s, c)).text == s.text
    ensures Backspace(TypeRune(s, c)).cursorX == s.cursorX
    ensures Backspace(TypeRune(s, c)).cursorY == s.cursorY
  {
    var l := s.text[s.cursorY];
    var l' := l[..s.cursorX] + [c] + l[s.cursorX..];
    assert l'[..s.cursorX] + l'[s.cursorX + 1..] == l;
  }

  /** Enter and then Backspace join the split line again. */
  lemma {:induction false} EnterThenBackspace(s: Session)
    requires Valid(s)
    ensures Backspace(Enter(s)).text == s.text
    ensures Backspace(Enter(s)).cursorX == s.cursorX
    ensures Backspace(Enter(s)).cursorY == s.cursorY
  {
    var t := Enter(s).text;
    var y := s.cursorY;
    var l := s.text[y];
    assert t[y] + t[y + 1] == l;
    assert t[..y] + [l] + t[y + 2..] == s.text;
  }

  /** A short session: split "ab" at its end, join the lines again with
      Backspace, then undo both edits one after the other. Each step's whole
      resulting state is given. */
  lemma {:induction false} SplitJoinUndoSession()
    ensures Enter(Session(["ab", "cd"], 2, 0, [], [])) ==
      Session(["ab", "", "cd"], 0, 1, [["ab", "cd"]], [])
    ensures Backspace(Session(["ab", "", "cd"], 0, 1, [["ab", "cd"]], [])) ==
      Session(["ab", "cd"], 2, 0, [["ab", "cd"], ["ab", "", "cd"]], [])
    ensures Undo(Session(["ab", "cd"], 2, 0, [["ab", "cd"], ["ab", "", "cd"]], [])) ==
      Session(["ab", "", "cd"], 0, 0, [["ab", "cd"]], [["ab", "cd"]])
    ensures Undo(Session(["ab", "", "cd"], 0, 0, [["ab", "cd"]], [["ab", "cd"]])) ==
      Session(["ab", "cd"], 0, 0, [], [["ab", "cd"], ["ab", "", "cd"]])
  {
    SessionSplit();
    SessionJoin();
    SessionUndoJoin();
    SessionUndoSplit();
  }

  lemma {:induction false} SessionSplit()
    ensures Enter(Session(["ab", "cd"], 2, 0, [], [])) ==
      Session(["ab", "", "cd"], 0, 1, [["ab", "cd"]], [])
  {
    var l: Line := "ab";
    assert l[..2] == "ab" && l[2..] == "";
  }

  lemma {:induction false} SessionJoin()
    ensures Backspace(Session(["ab", "", "cd"], 0, 1, [["ab", "cd"]], [])) ==
      Session(["ab", "cd"], 2, 0, [["ab", "cd"], ["ab", "", "cd"]], [])
  {
    var t: Text := ["ab", "", "cd"];
    assert t[0] + t[1] == "ab" && t[2..] == ["cd"];
    assert t[..0] + [t[0] + t[1]] + t[2..] == ["ab", "cd"];
  }

  lemma {:induction false} SessionUndoJoin()
    ensures Undo(Session(["ab", "cd"], 2, 0, [["ab", "cd"], ["ab", "", "cd"]], [])) ==
      Session(["ab", "", "cd"], 0, 0, [["ab", "cd"]], [["ab", "cd"]])
  {
  }

  lemma {:induction false} SessionUndoSplit()
    ensures Undo(Session(["ab", "", "cd"], 0, 0, [["ab", "cd"]], [["ab", "cd"]])) ==
      Session(["ab", "cd"], 0, 0, [], [["ab", "cd"], ["ab", "", "cd"]])
  {
  }

  // ---------------------------------------------------------------------------
  // The document as the saved file: every key acts on the flat character
  // sequence Serialize(text) like an editor on a single string would.

  /** The cursor as an offset into the saved file. */
  function Position(s: Session): int
    requires Valid(s)
  {
    |Serialize(s.text[..s.cursorY])| + s.cursorX
  }

  /** The cursor is always on a character of the saved file (at worst the
      newline of the last line); it is at offset 0 exactly at the start of the
      document, and on that last newline exactly at the end of the last line. */
  lemma {:induction false} PositionBounds(s: Session)
    requires Valid(s)
    ensures 0 <= Position(s) < |Serialize(s.text)|
    ensures Position(s) == 0 <==> s.cursorX == 0 && s.cursorY == 0
    ensures Position(s) == |Serialize(s.text)| - 1 <==>
      s.cursorY == |s.text| - 1 && s.cursorX == |s.text[s.cursorY]|
  {
    SerializeAt(s.text, s.cursorY);
    SerializeLength(s.text[..s.cursorY]);
    SerializeLength(s.text[s.cursorY + 1..]);
  }

  /** Typing a rune inserts it into the saved file at the cursor, and the cursor moves past it. */
  lemma {:induction false} TypeRuneAtCursor(s: Session, c: char)
    requires Valid(s) && c != '\0'
    ensures var f, p := Serialize(s.text), Position(s);
      0 <= p <= |f| &&
      Serialize(TypeRune(s, c).text) == f[..p] + [c] + f[p..] &&
      Position(TypeRune(s, c)) == p + 1
  {
    var t, y, x := s.text, s.cursorY, s.cursorX;
    assert TypeRune(s, c).text == t[y := t[y][..x] + [c] + t[y][x..]];
    InsertAt(t, y, x, c);
  }

  /** Enter inserts a newline into the saved file at the cursor, and the cursor moves past it. */
  lemma {:induction false} EnterAtCursor(s: Session)
    requires Valid(s)
    ensures var f, p := Serialize(s.text), Position(s);
      0 <= p <= |f| &&
      Serialize(Enter(s).text) == f[..p] + ['\n'] + f[p..] &&
      Position(Enter(s)) == p + 1
  {
    var t, y, x := s.text, s.cursorY, s.cursorX;
    assert Enter(s).text == t[..y] + [t[y][..x], t[y][x..]] + t[y + 1..];
    SplitAt(t, y, x);
  }

  /** Backspace deletes the character before the cursor in the saved file,
      a rune or the newline that ends the line above, and the cursor moves
      back onto its place; at offset 0 it does nothing. */
  lemma {:induction false} BackspaceAtCursor(s: Session)
    requires Valid(s)
    ensures var f, p := Serialize(s.text), Position(s);
      0 <= p <= |f| &&
      (p == 0 ==> Backspace(s) == s) &&
      (p > 0 ==>
         Serialize(Backspace(s).text) == f[..p - 1] + f[p..] &&
         Position(Backspace(s)) == p - 1)
  {
    if s.cursorX > 0 {
      BackspaceRuneAtCursor(s);
    } else if s.cursorY > 0 {
      BackspaceJoinAtCursor(s);
    } else {
      PositionBounds(s);
    }
  }

  lemma {:induction false} BackspaceRuneAtCursor(s: Session)
    requires Valid(s) && s.cursorX > 0
    ensures var f, p := Serialize(s.text), Position(s);
      1 <= p <= |f| && Serialize(Backspace(s).text) == f[..p - 1] + f[p..] && Position(Backspace(s)) == p - 1
  {
    var t, y, x := s.text, s.cursorY, s.cursorX;
    assert Backspace(s).text == t[y := t[y][..x - 1] + t[y][x..]];
    DeleteAt(t, y, x);
  }

  lemma {:induction false} BackspaceJoinAtCursor(s: Session)
    requires Valid(s) && s.cursorX == 0 && s.cursorY > 0
    ensures var f, p := Serialize(s.text), Position(s);
      1 <= p <= |f| && Serialize(Backspace(s).text) == f[..p - 1] + f[p..] && Position(Backspace(s)) == p - 1
  {
    var t, y := s.text, s.cursorY;
    assert Backspace(s).text == t[..y - 1] + [t[y - 1] + t[y]] + t[y + 1..];
    JoinAt(t, y);
  }

  /** Left arrow steps back one character of the saved file, except at offset 0. */
  lemma {:induction false} LeftAtCursor(s: Session)
    requires Valid(s)
    ensures Position(Left(s)) == if Position(s) == 0 then 0 else Position(s) - 1
  {
    PositionBounds(s);
    if s.cursorX == 0 && s.cursorY > 0 {
      SerializeTake(s.text, s.cursorY - 1);
    }
  }

  /** Right arrow steps on one character of the saved file, except from the last newline. */
  lemma {:induction false} RightAtCursor(s: Session)
    requires Valid(s)
    ensures Position(Right(s)) ==
      if Position(s) + 1 == |Serialize(s.text)| then Position(s) else Position(s) + 1
  {
    PositionBounds(s);
    if s.cursorX == |s.text[s.cursorY]| && s.cursorY + 1 < |s.text| {
      SerializeTake(s.text, s.cursorY);
    }
  }
}
