/** Substring search over the whole document: every start column of the query
    in every line, overlapping occurrences included, row by row and left to
    right within a row. */
module Search {
  import opened Lines

  /** A match: the column where the query starts, and the row of its line. */
  datatype Match = Match(col: int, row: int)

  /** The query occurs in the line starting at column x. */
  predicate Occurs(l: Line, q: seq<char>, x: int)
  {
    0 <= x && x + |q| <= |l| && l[x..x + |q|] == q
  }

  /** Row-major order: an earlier row, or the same row and an earlier column. */
  predicate Before(a: Match, b: Match)
  {
    a.row < b.row || (a.row == b.row && a.col < b.col)
  }

  predicate Sorted(ms: seq<Match>)
  {
    forall i, j :: 0 <= i < j < |ms| ==> Before(ms[i], ms[j])
  }

  /** The first occurrence of q in s at or after k, or -1. */
  function IndexFrom(s: seq<char>, q: seq<char>, k: nat): (r: int)
    requires k <= |s|
    ensures r == -1 || (k <= r && Occurs(s, q, r))
    decreases |s| - k
  {
    if k + |q| > |s| then -1
    else if s[k..k + |q|] == q then k
    // never taken (here k + |q| <= |s|, so k == |s| means q is empty and
    // matched above); it lets the recursion's termination be proved
    else if k == |s| then -1
    else IndexFrom(s, q, k + 1)
  }

  /** IndexFrom skips no occurrence: there is none from k up to its result,
      and none at all from k on when it gives -1. */
  lemma {:induction false} IndexFromFirst(s: seq<char>, q: seq<char>, k: nat)
    requires k <= |s|
    ensures var r := IndexFrom(s, q, k);
      forall j :: k <= j && (r == -1 || j < r) ==> !Occurs(s, q, j)
    decreases |s| - k
  {
    if k + |q| <= |s| && s[k..k + |q|] != q && k < |s| {
      IndexFromFirst(s, q, k + 1);
    }
  }

  /** The index of the first occurrence of q in s, -1 when there is none, as
      the standard library's substring index does. */
  function Index(s: seq<char>, q: seq<char>): (r: int)
    ensures r == -1 || Occurs(s, q, r)
  {
    IndexFrom(s, q, 0)
  }

  /** Index gives the first occurrence: none lies before its result, and
      none at all when it gives -1. */
  lemma {:induction false} IndexFirst(s: seq<char>, q: seq<char>)
    ensures var r := Index(s, q);
      forall j :: 0 <= j && (r == -1 || j < r) ==> !Occurs(s, q, j)
  {
    IndexFromFirst(s, q, 0);
  }

  /** Specification: the matches of q in line l (row y) starting at column x or later. */
  function LineMatches(l: Line, q: seq<char>, y: int, x: nat): seq<Match>
    requires |q| > 0
    decreases |l| - x
  {
    if x + |q| > |l| then []
    else if l[x..x + |q|] == q then [Match(x, y)] + LineMatches(l, q, y, x + 1)
    else LineMatches(l, q, y, x + 1)
  }

  /** Specification: the matches of q in the whole document, line after line. */
  function AllMatches(t: Text, q: seq<char>): seq<Match>
    requires |q| > 0
  {
    if t == [] then []
    else AllMatches(t[..|t| - 1], q) + LineMatches(t[|t| - 1], q, |t| - 1, 0)
  }

  /** A match in a line's list is exactly an occurrence in that row at or after x. */
  lemma {:induction false} LineMatchesExactly(l: Line, q: seq<char>, y: int, x: nat, m: Match)
    requires |q| > 0
    ensures m in LineMatches(l, q, y, x) <==> m.row == y && x <= m.col && Occurs(l, q, m.col)
    decreases |l| - x
  {
    if x + |q| <= |l| {
      LineMatchesExactly(l, q, y, x + 1, m);
    }
  }

  /** A line's matches are in strictly increasing columns, all in row y, none before x. */
  lemma {:induction false} LineMatchesSorted(l: Line, q: seq<char>, y: int, x: nat)
    requires |q| > 0
    ensures Sorted(LineMatches(l, q, y, x))
    ensures forall i :: 0 <= i < |LineMatches(l, q, y, x)| ==>
      LineMatches(l, q, y, x)[i].row == y && LineMatches(l, q, y, x)[i].col >= x
    decreases |l| - x
  {
    if x + |q| <= |l| {
      LineMatchesSorted(l, q, y, x + 1);
    }
  }

  /** Columns from x up to (not including) z hold no occurrence: the matches
      from x are those from z. */
  lemma {:induction false} SkipNoMatch(l: Line, q: seq<char>, y: int, x: nat, z: nat)
    requires |q| > 0 && x <= z
    requires forall j :: x <= j < z ==> !Occurs(l, q, j)
    ensures LineMatches(l, q, y, x) == LineMatches(l, q, y, z)
    decreases z - x
  {
    if x < z {
      assert !Occurs(l, q, x);
      if x + |q| <= |l| {
        SkipNoMatch(l, q, y, x + 1, z);
      } else {
        LineMatchesEmpty(l, q, y, z);
      }
    }
  }

  lemma {:induction false} LineMatchesEmpty(l: Line, q: seq<char>, y: int, z: nat)
    requires |q| > 0 && z + |q| > |l|
    ensures LineMatches(l, q, y, z) == []
  {
  }

  /** An occurrence in the rest of the line from x is an occurrence in the line, x columns on. */
  lemma OccursShift(l: Line, q: seq<char>, x: nat, j: nat)
    requires x <= |l|
    ensures Occurs(l[x..], q, j) <==> Occurs(l, q, x + j)
  {
    if x + j + |q| <= |l| {
      assert l[x..][j..j + |q|] == l[x + j..x + j + |q|];
    }
  }

  /** When the index search finds nothing in the rest of the line, no match is left. */
  lemma {:induction false} ScanNone(l: Line, q: seq<char>, y: int, x: nat)
    requires |q| > 0 && x <= |l| && Index(l[x..], q) == -1
    ensures LineMatches(l, q, y, x) == []
  {
    IndexFirst(l[x..], q);
    forall j | x <= j < |l| + 1 ensures !Occurs(l, q, j) {
      OccursShift(l, q, x, j - x);
    }
    SkipNoMatch(l, q, y, x, |l| + 1);
    LineMatchesEmpty(l, q, y, |l| + 1);
  }

  /** Every match lies in the document, in a row below |t|. */
  lemma {:induction false} AllMatchesExactly(t: Text, q: seq<char>, m: Match)
    requires |q| > 0
    ensures m in AllMatches(t, q) <==> 0 <= m.row < |t| && Occurs(t[m.row], q, m.col)
    decreases |t|
  {
    if t != [] {
      var t' := t[..|t| - 1];
      AllMatchesExactly(t', q, m);
      LineMatchesExactly(t[|t| - 1], q, |t| - 1, 0, m);
    }
  }

  /** The matches come in row-major order, each one strictly after the previous. */
  lemma {:induction false} AllMatchesSorted(t: Text, q: seq<char>)
    requires |q| > 0
    ensures Sorted(AllMatches(t, q))
    decreases |t|
  {
    if t != [] {
      var t' := t[..|t| - 1];
      var a, b := AllMatches(t', q), LineMatches(t[|t| - 1], q, |t| - 1, 0);
      AllMatchesSorted(t', q);
      LineMatchesSorted(t[|t| - 1], q, |t| - 1, 0);
      forall i | 0 <= i < |a| ensures a[i].row < |t| - 1 {
        AllMatchesExactly(t', q, a[i]);
      }
      assert AllMatches(t, q) == a + b;
    }
  }

  /** Overlapping occurrences are all reported: "aa" in "aaa" starts at columns 0 and 1. */
  lemma {:induction false} OverlappingMatches()
    ensures AllMatches(["aaa"], "aa") == [Match(0, 0), Match(1, 0)]
  {
    var l := "aaa";
    assert l[0..2] == "aa" && l[1..3] == "aa";
    assert LineMatches(l, "aa", 0, 2) == [];
    assert LineMatches(l, "aa", 0, 0) == [Match(0, 0), Match(1, 0)];
    assert ["aaa"][..0] == [];
  }

  /** The matches of the first y + 1 lines: those of the first y, then those of line y. */
  lemma {:induction false} AllMatchesStep(t: Text, q: seq<char>, y: int)
    requires |q| > 0 && 0 <= y < |t|
    ensures AllMatches(t[..y + 1], q) == AllMatches(t[..y], q) + LineMatches(t[y], q, y, 0)
  {
    assert t[..y + 1][..y] == t[..y];
  }

  /** One round of the scan: the match the index search found is the next
      one still to be emitted, and the rest start one column after it. */
  lemma {:induction false} ScanAdvance(l: Line, q: seq<char>, y: int, x: nat, idx: int)
    requires |q| > 0 && x <= |l|
    requires idx == Index(l[x..], q) && idx != -1
    ensures x + idx + 1 <= |l|
    ensures LineMatches(l, q, y, x) == [Match(x + idx, y)] + LineMatches(l, q, y, x + idx + 1)
  {
    assert Occurs(l, q, x + idx) by {
      OccursShift(l, q, x, idx);
    }
    assert LineMatches(l, q, y, x) == LineMatches(l, q, y, x + idx) by {
      IndexFirst(l[x..], q);
      forall j | x <= j < x + idx ensures !Occurs(l, q, j) {
        OccursShift(l, q, x, j - x);
      }
      SkipNoMatch(l, q, y, x, x + idx);
    }
    FoundHere(l, q, y, x + idx);
  }

  /** An occurrence at column z heads the matches from z. */
  lemma {:induction false} FoundHere(l: Line, q: seq<char>, y: int, z: nat)
    requires |q| > 0 && Occurs(l, q, z)
    ensures LineMatches(l, q, y, z) == [Match(z, y)] + LineMatches(l, q, y, z + 1)
  {
  }

  /** One round of the line scan keeps the scan's invariant: the results so
      far followed by the matches still ahead are all the line's matches. */
  lemma {:induction false} ScanStep(results0: seq<Match>, results: seq<Match>, l: Line, q: seq<char>,
                                    y: int, x: nat, idx: int, next: int)
    requires |q| > 0 && x <= |l|
    requires idx == Index(l[x..], q) && idx != -1 && next == x + idx + 1
    requires results + LineMatches(l, q, y, x) == results0 + LineMatches(l, q, y, 0)
    ensures x < next <= |l|
    ensures (results + [Match(x + idx, y)]) + LineMatches(l, q, y, next) ==
      results0 + LineMatches(l, q, y, 0)
  {
    ScanAdvance(l, q, y, x, idx);
    Advance(results, Match(x + idx, y), LineMatches(l, q, y, x), LineMatches(l, q, y, next),
            results0 + LineMatches(l, q, y, 0));
  }

  /** Moving the next match from the pending list to the results keeps their
      concatenation. */
  lemma Advance(results: seq<Match>, m: Match, todo: seq<Match>, rest: seq<Match>, total: seq<Match>)
    requires results + todo == total && todo == [m] + rest
    ensures (results + [m]) + rest == total
  {
  }

  /** When the index search finds nothing more, the results are complete. */
  lemma {:induction false} ScanStop(results0: seq<Match>, results: seq<Match>, l: Line, q: seq<char>,
                                    y: int, x: nat)
    requires |q| > 0 && x <= |l| && Index(l[x..], q) == -1
    requires results + LineMatches(l, q, y, x) == results0 + LineMatches(l, q, y, 0)
    ensures results == results0 + LineMatches(l, q, y, 0)
  {
    ScanNone(l, q, y, x);
    assert results + [] == results;
  }

  /** The search loop: every line in turn is scanned for matches, which are
      appended to the results. */
  method SearchInText(t: Text, q: seq<char>) returns (results: seq<Match>)
    requires |q| > 0
    ensures results == AllMatches(t, q)
    ensures forall m :: m in results <==> 0 <= m.row < |t| && Occurs(t[m.row], q, m.col)
    ensures Sorted(results)
  {
    results := [];
    for y := 0 to |t|
      invariant results == AllMatches(t[..y], q)
    {
      results := ScanLine(results, t[y], q, y);
      AllMatchesStep(t, q, y);
    }
    assert t[..|t|] == t;
    forall m ensures m in results <==> 0 <= m.row < |t| && Occurs(t[m.row], q, m.col) {
      AllMatchesExactly(t, q, m);
    }
    AllMatchesSorted(t, q);
  }

  /** The scan of one line, the inner loop of the search: the substring index
      is asked for the first match from column x on, the match is appended,
      and the scan resumes one column after it, until no match is left. */
  method ScanLine(results0: seq<Match>, l: Line, q: seq<char>, y: int) returns (results: seq<Match>)
    requires |q| > 0
    ensures results == results0 + LineMatches(l, q, y, 0)
  {
    results := results0;
    var x := 0;
    while true
      invariant 0 <= x <= |l|
      invariant results + LineMatches(l, q, y, x) == results0 + LineMatches(l, q, y, 0)
      decreases |l| - x
    {
      var idx := Index(l[x..], q);
      if idx == -1 {
        ScanStop(results0, results, l, q, y, x);
        break;
      }
      var next := x + idx + 1;
      ScanStep(results0, results, l, q, y, x, idx, next);
      results := results + [Match(x + idx, y)];
      x := next;
    }
  }
}
