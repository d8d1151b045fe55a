/**
 * Shape matrices of the falling-block engine and their quarter-turn rotation
 * (the index transform of `rotatePiece` in js/main.js).
 *
 * A shape is a matrix of 0/1 cells; the engine only ever tests a cell for
 * truthiness, so a cell is a `bool` here (1 = true, 0 = false).
 */
module Shapes {

  type Shape = seq<seq<bool>>

  /** An N x N matrix. */
  ghost predicate IsSquare(s: Shape) {
    forall i :: 0 <= i < |s| ==> |s[i]| == |s|
  }

  /** Cell (i, j) of `s` exists and is filled. */
  predicate IsFilled(s: Shape, i: int, j: int) {
    0 <= i < |s| && 0 <= j < |s[i]| && s[i][j]
  }

  /** The shape has at least one filled cell. */
  ghost predicate HasBlock(s: Shape) {
    exists i, j :: IsFilled(s, i, j)
  }

  /** The coordinates of the filled cells. */
  ghost function FilledCells(s: Shape): set<(int, int)> {
    set i, j | 0 <= i < |s| && 0 <= j < |s[i]| && IsFilled(s, i, j) :: (i, j)
  }

  /** Clockwise quarter turn: rotated[y][x] = shape[N - x - 1][y]. */
  function RotateCW(s: Shape): (r: Shape)
    requires IsSquare(s)
    ensures |r| == |s| && IsSquare(r)
  {
    var n := |s|;
    seq(n, y requires 0 <= y < n => seq(n, x requires 0 <= x < n => s[n - x - 1][y]))
  }

  /** Counter-clockwise quarter turn: rotated[y][x] = shape[x][N - y - 1]. */
  function RotateCCW(s: Shape): (r: Shape)
    requires IsSquare(s)
    ensures |r| == |s| && IsSquare(r)
  {
    var n := |s|;
    seq(n, y requires 0 <= y < n => seq(n, x requires 0 <= x < n => s[x][n - y - 1]))
  }

  function Rotate(s: Shape, clockwise: bool): (r: Shape)
    requires IsSquare(s)
    ensures |r| == |s| && IsSquare(r)
  {
    if clockwise then RotateCW(s) else RotateCCW(s)
  }

  /** Two square matrices of equal size are equal when they agree cell by cell. */
  lemma SquareExt(a: Shape, b: Shape)
    requires IsSquare(a) && IsSquare(b) && |a| == |b|
    requires forall i, j :: 0 <= i < |a| && 0 <= j < |a| ==> a[i][j] == b[i][j]
    ensures a == b
  {
    forall i | 0 <= i < |a| ensures a[i] == b[i] {
      assert |a[i]| == |b[i]|;
    }
  }

  /** A clockwise turn followed by a counter-clockwise one gives back the shape. */
  lemma CCWUndoesCW(s: Shape)
    requires IsSquare(s)
    ensures RotateCCW(RotateCW(s)) == s
  {
    var r := RotateCCW(RotateCW(s));
    var n := |s|;
    forall i, j | 0 <= i < n && 0 <= j < n ensures r[i][j] == s[i][j] {
      assert r[i][j] == RotateCW(s)[j][n - i - 1];
    }
    SquareExt(r, s);
  }

  /** A counter-clockwise turn followed by a clockwise one gives back the shape. */
  lemma CWUndoesCCW(s: Shape)
    requires IsSquare(s)
    ensures RotateCW(RotateCCW(s)) == s
  {
    var r := RotateCW(RotateCCW(s));
    var n := |s|;
    forall i, j | 0 <= i < n && 0 <= j < n ensures r[i][j] == s[i][j] {
      assert r[i][j] == RotateCCW(s)[n - j - 1][i];
    }
    SquareExt(r, s);
  }

  /** A half turn maps cell (i, j) to (N-1-i, N-1-j). */
  lemma HalfTurnAt(s: Shape, i: int, j: int)
    requires IsSquare(s) && 0 <= i < |s| && 0 <= j < |s|
    ensures RotateCW(RotateCW(s))[i][j] == s[|s| - 1 - i][|s| - 1 - j]
  {
    var n := |s|;
    assert RotateCW(RotateCW(s))[i][j] == RotateCW(s)[n - j - 1][i];
  }

  /** Four clockwise turns give back the shape. */
  lemma FourTurns(s: Shape)
    requires IsSquare(s)
    ensures RotateCW(RotateCW(RotateCW(RotateCW(s)))) == s
  {
    var h := RotateCW(RotateCW(s));
    var r := RotateCW(RotateCW(h));
    var n := |s|;
    forall i, j | 0 <= i < n && 0 <= j < n ensures r[i][j] == s[i][j] {
      HalfTurnAt(h, i, j);
      HalfTurnAt(s, n - 1 - i, n - 1 - j);
    }
    SquareExt(r, s);
  }

  /** The image of a set of cells under (i, j) |-> (j, n - 1 - i). */
  ghost function TurnCells(c: set<(int, int)>, n: int): set<(int, int)> {
    set p | p in c :: (p.1, n - 1 - p.0)
  }

  lemma {:induction false} TurnCellsSize(c: set<(int, int)>, n: int)
    ensures |TurnCells(c, n)| == |c|
    decreases |c|
  {
    if c != {} {
      var p :| p in c;
      var rest := c - {p};
      TurnCellsSize(rest, n);
      assert TurnCells(c, n) == TurnCells(rest, n) + {(p.1, n - 1 - p.0)};
      assert (p.1, n - 1 - p.0) !in TurnCells(rest, n);
    } else {
      assert TurnCells(c, n) == {};
    }
  }

  lemma FilledCellsMember(s: Shape, q: (int, int))
    ensures q in FilledCells(s) <==> IsFilled(s, q.0, q.1)
  {
    if IsFilled(s, q.0, q.1) {
      assert (q.0, q.1) in FilledCells(s);
    }
  }

  /** The filled cells of a clockwise turn are the turned filled cells. */
  lemma CWCells(s: Shape)
    requires IsSquare(s)
    ensures FilledCells(RotateCW(s)) == TurnCells(FilledCells(s), |s|)
  {
    var n := |s|;
    var r := RotateCW(s);
    var a, b := FilledCells(r), TurnCells(FilledCells(s), n);
    forall q | q in a ensures q in b {
      FilledCellsMember(r, q);
      var p := (n - 1 - q.1, q.0);
      assert r[q.0][q.1] == s[p.0][p.1];
      FilledCellsMember(s, p);
      assert (p.1, n - 1 - p.0) == q;
    }
    forall q | q in b ensures q in a {
      var p :| p in FilledCells(s) && q == (p.1, n - 1 - p.0);
      FilledCellsMember(s, p);
      assert r[p.1][n - 1 - p.0] == s[p.0][p.1];
      FilledCellsMember(r, q);
    }
  }

  /** A clockwise turn keeps the number of filled cells. */
  lemma CWKeepsCount(s: Shape)
    requires IsSquare(s)
    ensures |FilledCells(RotateCW(s))| == |FilledCells(s)|
  {
    CWCells(s);
    TurnCellsSize(FilledCells(s), |s|);
  }

  /** A counter-clockwise turn keeps the number of filled cells. */
  lemma CCWKeepsCount(s: Shape)
    requires IsSquare(s)
    ensures |FilledCells(RotateCCW(s))| == |FilledCells(s)|
  {
    var t := RotateCCW(s);
    CWUndoesCCW(s);
    CWKeepsCount(t);
  }

  /** A shape with a filled cell has a block. */
  lemma NonEmptyHasBlock(s: Shape)
    requires |FilledCells(s)| > 0
    ensures HasBlock(s)
  {
    var p :| p in FilledCells(s);
    assert IsFilled(s, p.0, p.1);
  }

  /**
   * The loop of `rotatePiece`: fills a fresh N x N matrix cell by cell from the
   * index transform of the chosen direction.
   */
  method Rotated(shape: Shape, clockwise: bool) returns (rotated: Shape)
    requires IsSquare(shape)
    ensures rotated == Rotate(shape, clockwise)
  {
    var n := |shape|;
    rotated := [];
    var y := 0;
    while y < n
      invariant 0 <= y <= n && |rotated| == y
      invariant forall i :: 0 <= i < y ==> rotated[i] == Rotate(shape, clockwise)[i]
    {
      var row: seq<bool> := [];
      var x := 0;
      while x < n
        invariant 0 <= x <= n && |row| == x
        invariant forall j :: 0 <= j < x ==> row[j] == Rotate(shape, clockwise)[y][j]
      {
        row := row + [if clockwise then shape[n - x - 1][y] else shape[x][n - y - 1]];
        x := x + 1;
      }
      rotated := rotated + [row];
      y := y + 1;
    }
  }
}
