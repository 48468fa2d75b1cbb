/** The document as the editor holds it: a sequence of lines, each a sequence
    of runes, together with the save format, the load format and the deep copy
    used for undo snapshots. */
module Lines {

  type Line = seq<char>
  type Text = seq<Line>

  /** The saved file: every line followed by exactly one newline. */
  function Serialize(t: Text): (s: seq<char>)
  {
    if t == [] then [] else Serialize(t[..|t| - 1]) + t[|t| - 1] + ['\n']
  }

  /** Saving one document after another gives the two saved files one after the other. */
  lemma {:induction false} SerializeAppend(a: Text, b: Text)
    ensures Serialize(a + b) == Serialize(a) + Serialize(b)
    decreases |b|
  {
    if b == [] {
      assert a + b == a;
    } else {
      var b' := b[..|b| - 1];
      assert (a + b)[..|a + b| - 1] == a + b';
      assert (a + b)[|a + b| - 1] == b[|b| - 1];
      SerializeAppend(a, b');
    }
  }

  /** A saved file is as long as its lines plus one newline per line, so it
      has at least one character per line. */
  lemma {:induction false} SerializeLength(t: Text)
    ensures |Serialize(t)| >= |t|
    ensures t != [] ==> |Serialize(t)| == |Serialize(t[..|t| - 1])| + |t[|t| - 1]| + 1
  {
    if t != [] {
      SerializeLength(t[..|t| - 1]);
    }
  }

  /** The save format of a document in which no line holds a newline has
      exactly one newline per line. */
  lemma {:induction false} SerializeNewlines(t: Text)
    requires forall i :: 0 <= i < |t| ==> '\n' !in t[i]
    ensures multiset(Serialize(t))['\n'] == |t|
  {
    if t != [] {
      var t' := t[..|t| - 1];
      SerializeNewlines(t');
      assert '\n' !in t[|t| - 1];
      assert multiset(t[|t| - 1])['\n'] == 0;
    }
  }

  /** Three lines, the middle one empty, are saved as three records. */
  lemma SaveThreeLines()
    ensures Serialize(["x", "", "y"]) == "x\n\ny\n"
  {
    assert ["x", "", "y"][..2] == ["x", ""];
    assert ["x", ""][..1] == ["x"];
    assert ["x"][..0] == [];
  }

  /** A serialized line: its content, then the newline. */
  lemma {:induction false} SerializeCons(l: Line, rest: Text)
    ensures Serialize([l] + rest) == l + ['\n'] + Serialize(rest)
  {
    SerializeAppend([l], rest);
    assert [l][..0] == [];
  }

  /** The saved file around one line: what comes before, the line, its newline, what comes after. */
  lemma {:induction false} SerializeAround(a: Text, l: Line, b: Text)
    ensures Serialize(a + [l] + b) == Serialize(a) + l + ['\n'] + Serialize(b)
  {
    SerializeAppend(a + [l], b);
    assert (a + [l])[..|a|] == a;
  }

  /** The saved file of the first y + 1 lines. */
  lemma {:induction false} SerializeTake(t: Text, y: int)
    requires 0 <= y < |t|
    ensures Serialize(t[..y + 1]) == Serialize(t[..y]) + t[y] + ['\n']
  {
    assert t[..y + 1][..y] == t[..y];
  }

  /** The saved file split at line y. */
  lemma {:induction false} SerializeAt(t: Text, y: int)
    requires 0 <= y < |t|
    ensures Serialize(t) == Serialize(t[..y]) + t[y] + ['\n'] + Serialize(t[y + 1..])
  {
    assert t == t[..y] + [t[y]] + t[y + 1..];
    SerializeAround(t[..y], t[y], t[y + 1..]);
  }

  /** The saved file after line y is replaced by l. */
  lemma {:induction false} ReplaceLine(t: Text, y: int, l: Line)
    requires 0 <= y < |t|
    ensures t[y := l][..y] == t[..y]
    ensures Serialize(t[y := l]) == Serialize(t[..y]) + l + ['\n'] + Serialize(t[y + 1..])
  {
    assert t[y := l] == t[..y] + [l] + t[y + 1..];
    SerializeAround(t[..y], t[y := l][y], t[y + 1..]);
  }

  /** The saved file after line y is split in two at column x. */
  lemma {:induction false} SplitLine(t: Text, y: int, x: int)
    requires 0 <= y < |t| && 0 <= x <= |t[y]|
    ensures var u := t[..y] + [t[y][..x], t[y][x..]] + t[y + 1..];
      Serialize(u[..y + 1]) == Serialize(t[..y]) + t[y][..x] + ['\n'] &&
      Serialize(u) == Serialize(t[..y]) + (t[y][..x] + ['\n'] + t[y][x..]) + ['\n'] + Serialize(t[y + 1..])
  {
    var a, b := t[..y] + [t[y][..x]], t[y + 1..];
    var u := t[..y] + [t[y][..x], t[y][x..]] + t[y + 1..];
    assert u == a + [t[y][x..]] + b;
    assert u[..y + 1] == a && a[..y] == t[..y];
    SerializeAround(a, t[y][x..], b);
  }

  /** The saved file after line y is appended to line y - 1. */
  lemma {:induction false} JoinLines(t: Text, y: int)
    requires 0 < y < |t|
    ensures var u := t[..y - 1] + [t[y - 1] + t[y]] + t[y + 1..];
      u[..y - 1] == t[..y - 1] &&
      Serialize(u) == Serialize(t[..y - 1]) + (t[y - 1] + t[y]) + ['\n'] + Serialize(t[y + 1..]) &&
      Serialize(t[..y]) == Serialize(t[..y - 1]) + t[y - 1] + ['\n'] &&
      Serialize(t) == Serialize(t[..y - 1]) + t[y - 1] + ['\n'] + t[y] + ['\n'] + Serialize(t[y + 1..])
  {
    var u := t[..y - 1] + [t[y - 1] + t[y]] + t[y + 1..];
    assert u[..y - 1] == t[..y - 1];
    SerializeAround(t[..y - 1], t[y - 1] + t[y], t[y + 1..]);
    SerializeTake(t, y - 1);
    SerializeAt(t, y);
  }

  /** Inserting c at column x of a line inserts it at offset |sa| + x of the whole. */
  lemma {:induction false} InsertInString(sa: seq<char>, l: Line, sb: seq<char>, x: int, c: char)
    requires 0 <= x <= |l|
    ensures var f, p := sa + l + ['\n'] + sb, |sa| + x;
      0 <= p <= |f| &&
      sa + (l[..x] + [c] + l[x..]) + ['\n'] + sb == f[..p] + [c] + f[p..]
  {
    var f, p := sa + l + ['\n'] + sb, |sa| + x;
    assert f[..p] == sa + l[..x];
    assert f[p..] == l[x..] + ['\n'] + sb;
  }

  /** Deleting column x - 1 of a line deletes offset |sa| + x - 1 of the whole. */
  lemma {:induction false} DeleteInString(sa: seq<char>, l: Line, sb: seq<char>, x: int)
    requires 0 < x <= |l|
    ensures var f, p := sa + l + ['\n'] + sb, |sa| + x;
      1 <= p <= |f| &&
      sa + (l[..x - 1] + l[x..]) + ['\n'] + sb == f[..p - 1] + f[p..]
  {
    var f, p := sa + l + ['\n'] + sb, |sa| + x;
    assert f[..p - 1] == sa + l[..x - 1];
    assert f[p..] == l[x..] + ['\n'] + sb;
  }

  /** Joining two lines deletes the newline between them. */
  lemma {:induction false} DeleteNewline(sa: seq<char>, l1: Line, l2: Line, sb: seq<char>)
    ensures var f, p := sa + l1 + ['\n'] + l2 + ['\n'] + sb, |sa| + |l1| + 1;
      1 <= p <= |f| &&
      sa + (l1 + l2) + ['\n'] + sb == f[..p - 1] + f[p..]
  {
    var f, p := sa + l1 + ['\n'] + l2 + ['\n'] + sb, |sa| + |l1| + 1;
    assert f[..p - 1] == sa + l1;
    assert f[p..] == l2 + ['\n'] + sb;
  }

  // Each edit of one line is an edit of one character of the saved file, at
  // offset |Serialize(t[..y])| + x for column x of line y.

  /** Inserting c at column x of line y inserts it into the saved file. */
  lemma {:induction false} InsertAt(t: Text, y: int, x: int, c: char)
    requires 0 <= y < |t| && 0 <= x <= |t[y]|
    ensures var u, f, p := t[y := t[y][..x] + [c] + t[y][x..]], Serialize(t), |Serialize(t[..y])| + x;
      0 <= p <= |f| && Serialize(u) == f[..p] + [c] + f[p..] && u[..y] == t[..y]
  {
    ReplaceLine(t, y, t[y][..x] + [c] + t[y][x..]);
    SerializeAt(t, y);
    InsertInString(Serialize(t[..y]), t[y], Serialize(t[y + 1..]), x, c);
  }

  /** Splitting line y at column x inserts a newline into the saved file. */
  lemma {:induction false} SplitAt(t: Text, y: int, x: int)
    requires 0 <= y < |t| && 0 <= x <= |t[y]|
    ensures var u, f, p := t[..y] + [t[y][..x], t[y][x..]] + t[y + 1..], Serialize(t), |Serialize(t[..y])| + x;
      0 <= p <= |f| && Serialize(u) == f[..p] + ['\n'] + f[p..] && |Serialize(u[..y + 1])| == p + 1
  {
    SplitLine(t, y, x);
    SerializeAt(t, y);
    InsertInString(Serialize(t[..y]), t[y], Serialize(t[y + 1..]), x, '\n');
  }

  /** Deleting column x - 1 of line y deletes one character of the saved file. */
  lemma {:induction false} DeleteAt(t: Text, y: int, x: int)
    requires 0 <= y < |t| && 0 < x <= |t[y]|
    ensures var u, f, p := t[y := t[y][..x - 1] + t[y][x..]], Serialize(t), |Serialize(t[..y])| + x;
      1 <= p <= |f| && Serialize(u) == f[..p - 1] + f[p..] && u[..y] == t[..y]
  {
    ReplaceLine(t, y, t[y][..x - 1] + t[y][x..]);
    SerializeAt(t, y);
    DeleteInString(Serialize(t[..y]), t[y], Serialize(t[y + 1..]), x);
  }

  /** Joining line y onto line y - 1 deletes the newline between them from the saved file. */
  lemma {:induction false} JoinAt(t: Text, y: int)
    requires 0 < y < |t|
    ensures var u, f, p := t[..y - 1] + [t[y - 1] + t[y]] + t[y + 1..], Serialize(t), |Serialize(t[..y])|;
      1 <= p <= |f| && Serialize(u) == f[..p - 1] + f[p..] &&
      |Serialize(u[..y - 1])| + |t[y - 1]| == p - 1
  {
    JoinLines(t, y);
    DeleteNewline(Serialize(t[..y - 1]), t[y - 1], t[y], Serialize(t[y + 1..]));
  }

  /** The index of the first newline at or after k, or |s| when there is none. */
  function NewlineFrom(s: seq<char>, k: nat): (i: nat)
    requires k <= |s|
    ensures k <= i <= |s|
    ensures i < |s| ==> s[i] == '\n'
    ensures forall j :: k <= j < i ==> s[j] != '\n'
    decreases |s| - k
  {
    if k == |s| then k else if s[k] == '\n' then k else NewlineFrom(s, k + 1)
  }

  /** bufio's line tokens lose one trailing carriage return. */
  function DropCR(l: Line): (r: Line)
    ensures r == l || (l == r + ['\r'])
    ensures (|l| > 0 && l[|l| - 1] == '\r') <==> r != l
  {
    if |l| > 0 && l[|l| - 1] == '\r' then l[..|l| - 1] else l
  }

  /** The lines a line scanner reads from a file: the text between newlines,
      each without a trailing carriage return, and a last line without a
      newline when the file does not end in one. */
  function ScanLines(s: seq<char>): (t: Text)
    ensures s == [] <==> t == []
    decreases |s|
  {
    if s == [] then []
    else
      var i := NewlineFrom(s, 0);
      if i < |s| then [DropCR(s[..i])] + ScanLines(s[i + 1..]) else [DropCR(s)]
  }

  /** A line that the save format and the scanner carry through unchanged. */
  predicate PlainLine(l: Line)
  {
    '\n' !in l && (l == [] || l[|l| - 1] != '\r')
  }

  /** Reading back a saved file gives the same lines, as long as no line holds
      a newline or ends in a carriage return. */
  lemma {:induction false} ScanSerialized(t: Text)
    requires forall i :: 0 <= i < |t| ==> PlainLine(t[i])
    ensures ScanLines(Serialize(t)) == t
    decreases |t|
  {
    if t != [] {
      var l, rest := t[0], t[1..];
      assert t == [l] + rest;
      SerializeCons(l, rest);
      var s := Serialize(t);
      assert PlainLine(l);
      assert s[..|l|] == l;
      assert forall j :: 0 <= j < |l| ==> s[j] == l[j];
      assert s[|l|] == '\n';
      assert NewlineFrom(s, 0) == |l|;
      assert s[|l| + 1..] == Serialize(rest);
      assert forall i :: 0 <= i < |rest| ==> PlainLine(rest[i]) by {
        forall i | 0 <= i < |rest| ensures PlainLine(rest[i]) { assert rest[i] == t[i + 1]; }
      }
      ScanSerialized(rest);
    }
  }

  /** What opening the file gave: its content, or a failure (the file could
      not be opened, or the scanner stopped on an error). */
  datatype ReadOutcome = Read(content: seq<char>) | ReadFailed

  /** An empty file is loaded as one empty line, so a document is never empty. */
  function Normalize(t: Text): (r: Text)
    ensures |r| >= 1
    ensures t != [] ==> r == t
    ensures t == [] ==> r == [[]]
  {
    if |t| == 0 then [[]] else t
  }

  /** The lines loaded from a read, or None when the read failed. */
  function Load(outcome: ReadOutcome): (r: Option<Text>)
    ensures outcome.ReadFailed? <==> r.None?
    ensures r.Some? ==> |r.value| >= 1
  {
    match outcome
    case Read(content) => Some(Normalize(ScanLines(content)))
    case ReadFailed => None
  }

  /** Loading a file that the editor saved gives back the saved document. */
  lemma {:induction false} LoadSaved(t: Text)
    requires |t| >= 1
    requires forall i :: 0 <= i < |t| ==> PlainLine(t[i])
    ensures Load(Read(Serialize(t))) == Some(t)
  {
    ScanSerialized(t);
  }

  datatype Option<T> = None | Some(value: T)

  /** Writing the document out: each line in turn, followed by a newline. */
  method SaveToFile(t: Text) returns (written: seq<char>)
    ensures written == Serialize(t)
  {
    written := [];
    for i := 0 to |t|
      invariant written == Serialize(t[..i])
    {
      written := written + t[i] + ['\n'];
      SerializeTake(t, i);
    }
    assert t[..|t|] == t;
  }

  /** Reading the document in: the scanner yields one line per round (the
      text up to the next newline, without a trailing carriage return, or the
      unterminated rest of the file), each line is appended, and an empty
      file becomes one empty line. */
  method LoadFromFile(outcome: ReadOutcome) returns (r: Option<Text>)
    ensures r == Load(outcome)
  {
    match outcome
    case ReadFailed =>
      r := None;
    case Read(content) =>
      var loaded: Text := [];
      var rest := content;
      while rest != []
        invariant loaded + ScanLines(rest) == ScanLines(content)
        decreases |rest|
      {
        var i := NewlineFrom(rest, 0);
        var token;
        if i < |rest| {
          token := DropCR(rest[..i]);
          rest := rest[i + 1..];
        } else {
          token := DropCR(rest);
          rest := [];
        }
        loaded := loaded + [token];
      }
      assert loaded + [] == loaded;
      if |loaded| == 0 {
        loaded := [[]];
      }
      r := Some(loaded);
  }

  /** A fresh copy of one line, rune by rune. */
  method CloneLine(l: Line) returns (c: Line)
    ensures c == l
  {
    var copy := new char[|l|];
    for i := 0 to |l|
      invariant forall j :: 0 <= j < i ==> copy[j] == l[j]
    {
      copy[i] := l[i];
    }
    c := copy[..];
  }

  /** A deep copy of a document: a new line sequence holding a copy of every line. */
  method CloneText(t: Text) returns (c: Text)
    ensures c == t
  {
    var copy := new Line[|t|];
    for i := 0 to |t|
      invariant forall j :: 0 <= j < i ==> copy[j] == t[j]
    {
      copy[i] := CloneLine(t[i]);
    }
    c := copy[..];
  }
}
