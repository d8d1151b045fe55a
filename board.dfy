/**
 * The board of js/main.js: a 20 x 10 grid of empty-or-coloured cells, the
 * collision test `collide`, the cell-by-cell effect of `merge`, the effect of
 * the `clearLines` sweep, and the landing row that `getGhostPiece` and
 * `hardDrop` look for.
 */
module Board {
  import opened Shapes
  import opened Pieces

  const ROWS := 20
  const COLS := 10

  /** A grid cell: `null` or the colour of the piece locked there. */
  datatype Cell = Empty | Block(color: Color)

  /** The grid, row by row from the top. */
  type Grid = seq<seq<Cell>>

  ghost predicate WellFormedGrid(g: Grid) {
    |g| == ROWS && forall r :: 0 <= r < |g| ==> |g[r]| == COLS
  }

  /** `Array(COLS).fill(null)`: a row of empty cells, as `createGrid` and `clearLines` build it. */
  function EmptyRow(): (row: seq<Cell>)
    ensures |row| == COLS
  {
    seq(COLS, _ => Empty)
  }

  /** `createGrid`. */
  function EmptyGrid(): (g: Grid)
    ensures WellFormedGrid(g)
    ensures forall r, c :: 0 <= r < ROWS && 0 <= c < COLS ==> g[r][c] == Empty
  {
    seq(ROWS, _ => EmptyRow())
  }

  /** The piece moved to row `row`. */
  function At(p: Piece, row: int): Piece {
    p.(y := row)
  }

  // ---------------------------------------------------------------- collide

  /** The tests made for one filled cell landing at board column `col`, row `row`. */
  predicate Blocked(g: Grid, col: int, row: int)
    requires WellFormedGrid(g)
  {
    col < 0 || col >= COLS || row >= ROWS || (row >= 0 && g[row][col] != Empty)
  }

  /**
   * The scan of `collide` from shape cell (dy, dx) on, row by row, returning
   * at the first filled cell that is blocked.
   */
  function CollideFrom(g: Grid, p: Piece, dy: nat, dx: nat): bool
    requires WellFormedGrid(g)
    decreases |p.shape| - dy, if dy < |p.shape| then |p.shape[dy]| - dx else 0
  {
    if dy >= |p.shape| then false
    else if dx >= |p.shape[dy]| then CollideFrom(g, p, dy + 1, 0)
    else if p.shape[dy][dx] && Blocked(g, p.x + dx, p.y + dy) then true
    else CollideFrom(g, p, dy, dx + 1)
  }

  /** `collide(piece)`. */
  function Collide(g: Grid, p: Piece): bool
    requires WellFormedGrid(g)
  {
    CollideFrom(g, p, 0, 0)
  }

  lemma {:induction false} CollideFromIff(g: Grid, p: Piece, dy: nat, dx: nat)
    requires WellFormedGrid(g)
    ensures CollideFrom(g, p, dy, dx) <==>
      exists i, j :: (i > dy || (i == dy && j >= dx)) && IsFilled(p.shape, i, j) && Blocked(g, p.x + j, p.y + i)
    decreases |p.shape| - dy, if dy < |p.shape| then |p.shape[dy]| - dx else 0
  {
    if dy >= |p.shape| {
    } else if dx >= |p.shape[dy]| {
      CollideFromIff(g, p, dy + 1, 0);
      if exists i, j :: (i > dy || (i == dy && j >= dx)) && IsFilled(p.shape, i, j) && Blocked(g, p.x + j, p.y + i) {
        var i, j :| (i > dy || (i == dy && j >= dx)) && IsFilled(p.shape, i, j) && Blocked(g, p.x + j, p.y + i);
        assert i > dy && (i > dy + 1 || (i == dy + 1 && j >= 0));
      }
    } else if p.shape[dy][dx] && Blocked(g, p.x + dx, p.y + dy) {
      assert IsFilled(p.shape, dy, dx);
    } else {
      CollideFromIff(g, p, dy, dx + 1);
      if exists i, j :: (i > dy || (i == dy && j >= dx)) && IsFilled(p.shape, i, j) && Blocked(g, p.x + j, p.y + i) {
        var i, j :| (i > dy || (i == dy && j >= dx)) && IsFilled(p.shape, i, j) && Blocked(g, p.x + j, p.y + i);
        assert (i, j) != (dy, dx);
      }
    }
  }

  /**
   * `collide` is true exactly when some filled cell of the shape lands left
   * of column 0, right of column 9, below row 19, or on an occupied cell of a
   * row at or below 0. Cells above row 0 meet only the column bounds.
   */
  lemma CollideIff(g: Grid, p: Piece)
    requires WellFormedGrid(g)
    ensures Collide(g, p) <==>
      exists i, j :: IsFilled(p.shape, i, j) &&
        var col, row := p.x + j, p.y + i;
        col < 0 || col >= COLS || row >= ROWS || (0 <= row && g[row][col] != Empty)
  {
    CollideFromIff(g, p, 0, 0);
  }

  /** The filled cells of a piece lie on the board. */
  ghost predicate OnBoard(p: Piece) {
    forall i, j :: IsFilled(p.shape, i, j) ==> 0 <= p.y + i < ROWS && 0 <= p.x + j < COLS
  }

  /** A piece at row 0 or below that does not collide lies on the board, over empty cells only. */
  lemma FreeIsOnBoard(g: Grid, p: Piece)
    requires WellFormedGrid(g) && !Collide(g, p) && p.y >= 0
    ensures OnBoard(p)
    ensures forall i, j :: IsFilled(p.shape, i, j) ==> g[p.y + i][p.x + j] == Empty
  {
    CollideIff(g, p);
  }

  /** A piece with a block that does not collide has its top row above the floor. */
  lemma FreeIsAboveFloor(g: Grid, p: Piece)
    requires WellFormedGrid(g) && HasBlock(p.shape) && !Collide(g, p)
    ensures p.y < ROWS
  {
    CollideIff(g, p);
    var i, j :| IsFilled(p.shape, i, j);
  }

  /**
   * A piece whose shape is at most 4 x 4 never collides at the spawn position
   * (column 3, row 0) on an empty board: its cells fall in columns 3 to 6.
   */
  lemma SpawnFreeOnEmpty(p: Piece)
    requires p.x == SPAWN_X && p.y == SPAWN_Y
    requires IsSquare(p.shape) && |p.shape| <= 4
    ensures !Collide(EmptyGrid(), p)
  {
    CollideIff(EmptyGrid(), p);
  }

  // ---------------------------------------------------------------- merge

  /** Board cell (row, col) lies under a filled cell of the piece. */
  predicate Covers(p: Piece, row: int, col: int) {
    IsFilled(p.shape, row - p.y, col - p.x)
  }

  /** The grid after `merge(piece)`: the piece's colour in every cell it covers. */
  function Merged(g: Grid, p: Piece): (r: Grid)
    requires WellFormedGrid(g)
    ensures WellFormedGrid(r)
  {
    seq(ROWS, row requires 0 <= row < ROWS =>
      seq(COLS, col requires 0 <= col < COLS =>
        if Covers(p, row, col) then Block(p.color) else g[row][col]))
  }

  /**
   * Merging a piece that does not collide and is at row 0 or below writes its
   * colour into exactly its filled cells; each of those cells was empty, and
   * no other cell changes.
   */
  lemma MergeWritesExactly(g: Grid, p: Piece)
    requires WellFormedGrid(g) && !Collide(g, p) && p.y >= 0
    ensures OnBoard(p)
    ensures forall i, j :: IsFilled(p.shape, i, j) ==>
      g[p.y + i][p.x + j] == Empty && Merged(g, p)[p.y + i][p.x + j] == Block(p.color)
    ensures forall row, col :: 0 <= row < ROWS && 0 <= col < COLS && !Covers(p, row, col) ==>
      Merged(g, p)[row][col] == g[row][col]
  {
    FreeIsOnBoard(g, p);
    forall i, j | IsFilled(p.shape, i, j)
      ensures Merged(g, p)[p.y + i][p.x + j] == Block(p.color)
    {
      assert Covers(p, p.y + i, p.x + j);
    }
  }

  // ---------------------------------------------------------------- clearLines

  /** `row.every(cell => cell)`. */
  predicate RowFull(row: seq<Cell>) {
    forall c :: 0 <= c < |row| ==> row[c] != Empty
  }

  /** The rows that are not full, in their order. */
  function NonFullRows(g: Grid): (r: Grid)
    ensures |r| <= |g|
    ensures forall k :: 0 <= k < |r| ==> !RowFull(r[k]) && r[k] in g
  {
    if g == [] then []
    else (if RowFull(g[0]) then [] else [g[0]]) + NonFullRows(g[1..])
  }

  /** The number of full rows. */
  function FullRowCount(g: Grid): nat {
    if g == [] then 0
    else (if RowFull(g[0]) then 1 else 0) + FullRowCount(g[1..])
  }

  function EmptyRows(k: nat): (r: Grid)
    ensures |r| == k
  {
    seq(k, _ => EmptyRow())
  }

  /** The grid after `clearLines`: as many empty rows on top as full rows were removed. */
  function Cleared(g: Grid): (r: Grid)
    ensures WellFormedGrid(g) ==> WellFormedGrid(r)
  {
    RowsSplit(g);
    EmptyRows(FullRowCount(g)) + NonFullRows(g)
  }

  lemma {:induction false} RowsSplit(g: Grid)
    ensures |NonFullRows(g)| + FullRowCount(g) == |g|
  {
    if g != [] {
      RowsSplit(g[1..]);
    }
  }

  lemma {:induction false} NoFullRowsKept(g: Grid)
    requires forall r :: 0 <= r < |g| ==> !RowFull(g[r])
    ensures NonFullRows(g) == g && FullRowCount(g) == 0
  {
    if g != [] {
      NoFullRowsKept(g[1..]);
    }
  }

  /**
   * `clearLines` keeps 20 rows of 10 cells, leaves no full row, puts one empty
   * row on top per removed row, and keeps the rows that are not full in their
   * order below them.
   */
  lemma ClearedFacts(g: Grid)
    requires WellFormedGrid(g)
    ensures WellFormedGrid(Cleared(g))
    ensures forall r :: 0 <= r < ROWS ==> !RowFull(Cleared(g)[r])
    ensures Cleared(g)[..FullRowCount(g)] == EmptyRows(FullRowCount(g))
    ensures Cleared(g)[FullRowCount(g)..] == NonFullRows(g)
  {
    RowsSplit(g);
    var k := FullRowCount(g);
    var c := Cleared(g);
    forall r | 0 <= r < ROWS ensures |c[r]| == COLS && !RowFull(c[r]) {
      if r < k {
        assert c[r] == EmptyRow();
        assert c[r][0] == Empty;
      } else {
        assert c[r] == NonFullRows(g)[r - k];
      }
    }
  }

  /** A grid with no full row is left as it is, so clearing twice is clearing once. */
  lemma ClearedIdempotent(g: Grid)
    requires WellFormedGrid(g)
    ensures Cleared(Cleared(g)) == Cleared(g)
    ensures (forall r :: 0 <= r < ROWS ==> !RowFull(g[r])) ==> Cleared(g) == g
  {
    ClearedFacts(g);
    NoFullRowsKept(Cleared(g));
    if forall r :: 0 <= r < ROWS ==> !RowFull(g[r]) {
      NoFullRowsKept(g);
    }
  }

  /** With only the bottom row full, `clearLines` drops it and shifts the rest down by one. */
  lemma ClearBottomRow(g: Grid)
    requires WellFormedGrid(g)
    requires RowFull(g[ROWS - 1]) && forall r :: 0 <= r < ROWS - 1 ==> !RowFull(g[r])
    ensures FullRowCount(g) == 1
    ensures Cleared(g) == [EmptyRow()] + g[..ROWS - 1]
  {
    var top := g[..ROWS - 1];
    NoFullRowsKept(top);
    NonFullAppend(top, [g[ROWS - 1]]);
    assert g == top + [g[ROWS - 1]];
    assert NonFullRows([g[ROWS - 1]]) == [] by {
      assert [g[ROWS - 1]][1..] == [];
    }
    assert FullRowCount([g[ROWS - 1]]) == 1 by {
      assert [g[ROWS - 1]][1..] == [];
    }
  }

  lemma {:induction false} NonFullAppend(a: Grid, b: Grid)
    ensures NonFullRows(a + b) == NonFullRows(a) + NonFullRows(b)
    ensures FullRowCount(a + b) == FullRowCount(a) + FullRowCount(b)
  {
    if a == [] {
      assert a + b == b;
    } else {
      var ab := a + b;
      assert ab[0] == a[0] && ab[1..] == a[1..] + b;
      NonFullAppend(a[1..], b);
      var head := if RowFull(a[0]) then [] else [a[0]];
      assert NonFullRows(ab) == head + NonFullRows(a[1..] + b);
      assert NonFullRows(a) == head + NonFullRows(a[1..]);
    }
  }

  // ---------------------------------------------------------------- landing row

  /**
   * The first row at or after `row` where the piece collides: the loops of
   * `getGhostPiece` and `hardDrop` stop there. It exists because the shape
   * has a filled cell, which collides with the floor once the piece is far
   * enough down.
   */
  function FirstCollision(g: Grid, p: Piece, row: int): (r: int)
    requires WellFormedGrid(g) && HasBlock(p.shape)
    ensures row <= r && Collide(g, At(p, r))
    ensures forall t :: row <= t < r ==> !Collide(g, At(p, t))
    decreases ROWS - row
  {
    if Collide(g, At(p, row)) then row
    else
      FreeIsAboveFloor(g, At(p, row));
      FirstCollision(g, p, row + 1)
  }

  /** The row the piece comes to rest on when dropped from where it is. */
  function Landing(g: Grid, p: Piece): int
    requires WellFormedGrid(g) && HasBlock(p.shape)
  {
    FirstCollision(g, p, p.y) - 1
  }

  /**
   * The landing row is the one row `r` such that every row from the piece's
   * own down to `r` is free and row `r + 1` collides; if the piece is free
   * where it is, it lands at its own row or below, on the board.
   */
  lemma LandingIff(g: Grid, p: Piece, r: int)
    requires WellFormedGrid(g) && HasBlock(p.shape)
    ensures r == Landing(g, p) <==>
      p.y - 1 <= r && Collide(g, At(p, r + 1)) && forall t :: p.y <= t <= r ==> !Collide(g, At(p, t))
    ensures !Collide(g, p) ==> p.y <= Landing(g, p) && !Collide(g, At(p, Landing(g, p)))
  {
    var l := Landing(g, p);
    if !Collide(g, p) {
      assert At(p, p.y) == p;
    }
  }
}
