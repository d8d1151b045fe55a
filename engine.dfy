/**
 * The `Game` class of js/main.js: the game state, the piece controller
 * (move, soft drop, hard drop, rotate, hold, ghost projection) and the state
 * machine (pause, reset, score and line counters, the drop timer).
 *
 * `State` is a snapshot of the class's fields, and the `After...` functions
 * say what each method leaves behind; each method of `Game` is proved to
 * change its fields exactly as its function says, and the lemmas below prove
 * what the functions keep and promise.
 */
module Engine {
  import opened Shapes
  import opened Pieces
  import opened Board
  import opened GameState
  import opened Rules

  // ------------------------------------------------------------ the class

  class Game {
    var grid: Grid
    var currentPiece: Piece
    var nextPiece: Piece
    var heldPiece: Option<Piece>
    var canHold: bool
    var isPaused: bool
    var isGameOver: bool
    var score: nat
    var lines: nat
    var dropCounter: int
    var lastTime: int

    function Snapshot(): State
      reads this
    {
      State(grid, currentPiece, nextPiece, heldPiece, canHold, isPaused, isGameOver,
            score, lines, dropCounter, lastTime)
    }

    ghost predicate Valid()
      reads this
    {
      ValidState(Snapshot())
    }

    /** The state part of the constructor; `first` and `second` are the two random picks. */
    constructor (first: Kind, second: Kind)
      ensures Valid() && Snapshot() == Initial(first, second)
    {
      grid := EmptyGrid();
      currentPiece := RandomPiece(first);
      nextPiece := RandomPiece(second);
      isGameOver := false;
      isPaused := false;
      dropCounter := 0;
      lastTime := 0;
      score := 0;
      lines := 0;
      heldPiece := None;
      canHold := true;
      InitialValid(first, second);
    }

    /** `getGhostPiece`: a copy of the current piece moved down to its landing row; the game is left alone. */
    method GetGhostPiece() returns (ghostPiece: Piece)
      requires Valid()
      ensures HasBlock(currentPiece.shape)
      ensures ghostPiece == At(currentPiece, Landing(grid, currentPiece))
    {
      OrientationFacts(currentPiece.shape, currentPiece.kind);
      ghostPiece := currentPiece.(y := currentPiece.y, x := currentPiece.x);
      while !Collide(grid, ghostPiece)
        invariant ghostPiece == At(currentPiece, ghostPiece.y) && currentPiece.y <= ghostPiece.y
        invariant FirstCollision(grid, currentPiece, ghostPiece.y) == FirstCollision(grid, currentPiece, currentPiece.y)
        decreases ROWS - ghostPiece.y
      {
        FreeIsAboveFloor(grid, ghostPiece);
        ghostPiece := ghostPiece.(y := ghostPiece.y + 1);
      }
      ghostPiece := ghostPiece.(y := ghostPiece.y - 1);
    }

    /** `merge(piece)`: write the piece's colour into the grid under each of its filled cells. */
    method Merge(p: Piece)
      requires WellFormedGrid(grid) && OnBoard(p)
      modifies this`grid
      ensures grid == Merged(old(grid), p)
    {
      ghost var g0 := grid;
      var dy := 0;
      while dy < |p.shape|
        invariant 0 <= dy <= |p.shape| && WellFormedGrid(grid)
        invariant forall row, col :: 0 <= row < ROWS && 0 <= col < COLS ==>
          grid[row][col] == if Covers(p, row, col) && row - p.y < dy then Block(p.color) else g0[row][col]
      {
        var dx := 0;
        while dx < |p.shape[dy]|
          invariant 0 <= dx <= |p.shape[dy]| && WellFormedGrid(grid)
          invariant forall row, col :: 0 <= row < ROWS && 0 <= col < COLS ==>
            grid[row][col] ==
              if Covers(p, row, col) && (row - p.y < dy || (row - p.y == dy && col - p.x < dx))
              then Block(p.color) else g0[row][col]
        {
          if p.shape[dy][dx] {
            assert IsFilled(p.shape, dy, dx);
            grid := grid[p.y + dy := grid[p.y + dy][p.x + dx := Block(p.color)]];
          }
          dx := dx + 1;
        }
        dy := dy + 1;
      }
      ghost var m := Merged(g0, p);
      forall row | 0 <= row < ROWS ensures grid[row] == m[row] {
        assert forall col :: 0 <= col < COLS ==> grid[row][col] == m[row][col];
      }
    }

    /** `updateScore(points)`: the score is set, not increased. */
    method UpdateScore(points: nat)
      modifies this`score
      ensures score == points
    {
      score := points;
    }

    /** `updateLines(count)`: the line counter is set, not increased. */
    method UpdateLines(count: nat)
      modifies this`lines
      ensures lines == count
    {
      lines := count;
    }

    /**
     * `clearLines`: sweep from the bottom row up; a full row is spliced out,
     * an empty row is put on top, and the same row index is looked at again.
     */
    method ClearLines()
      requires WellFormedGrid(grid)
      modifies this`grid, this`score, this`lines
      ensures grid == Cleared(old(grid))
      ensures var k := FullRowCount(old(grid));
        && score == (if k > 0 then 100 * k else old(score))
        && lines == (if k > 0 then k else old(lines))
    {
      ghost var g0 := grid;
      var linesCleared := 0;
      var y := ROWS - 1;
      ghost var j := ROWS;
      assert g0[ROWS..] == [] && g0[..ROWS] == g0;
      while y >= 0
        invariant 0 <= j <= ROWS
        invariant linesCleared == FullRowCount(g0[j..])
        invariant grid == Sweep(g0, j, linesCleared)
        invariant j > 0 ==> y == linesCleared + j - 1
        invariant j == 0 ==> -1 <= y < linesCleared
        invariant score == old(score) && lines == old(lines)
        decreases y + 1 + j
      {
        if j > 0 {
          SweepRow(g0, j, linesCleared, grid, y);
        } else {
          SweepTopNotFull(g0, linesCleared, grid, y);
        }
        if RowFull(grid[y]) {
          SweepFull(g0, j, linesCleared, grid, y);
          j := j - 1;
          grid := [EmptyRow()] + grid[..y] + grid[y + 1..];
          linesCleared := linesCleared + 1;
          y := y + 1;
        } else if j > 0 {
          SweepKeep(g0, j, linesCleared, grid);
          j := j - 1;
        }
        y := y - 1;
      }
      SweepDone(g0, linesCleared);
      if linesCleared > 0 {
        UpdateScore(linesCleared * 100);
        UpdateLines(linesCleared);
      }
    }

    /** The lock sequence of `dropPiece` and `hardDrop`. */
    method LockPiece(pick: Kind)
      requires Valid() && !isGameOver
      modifies this
      ensures Valid() && Snapshot() == AfterLock(old(Snapshot()), pick)
    {
      ghost var s := Snapshot();
      LockValid(s, pick);
      FreeIsOnBoard(grid, currentPiece);
      Merge(currentPiece);
      ClearLines();
      assert Snapshot() == AfterClearLines(s.(grid := Merged(s.grid, s.currentPiece)));
      canHold := true;
      currentPiece := nextPiece;
      nextPiece := RandomPiece(pick);
      if Collide(grid, currentPiece) {
        isGameOver := true;
      }
    }

    /** `movePiece(dir)`. */
    method MovePiece(dir: int)
      requires Valid()
      modifies this
      ensures Valid() && Snapshot() == AfterMove(old(Snapshot()), dir)
    {
      MoveValid(Snapshot(), dir);
      currentPiece := currentPiece.(x := currentPiece.x + dir);
      if Collide(grid, currentPiece) {
        currentPiece := currentPiece.(x := currentPiece.x - dir);
      }
    }

    /** `dropPiece`; its callers run it only while the game is not over. */
    method DropPiece(pick: Kind)
      requires Valid() && !isGameOver
      modifies this
      ensures Valid() && Snapshot() == AfterDrop(old(Snapshot()), pick)
    {
      DropValid(Snapshot(), pick);
      currentPiece := currentPiece.(y := currentPiece.y + 1);
      if Collide(grid, currentPiece) {
        currentPiece := currentPiece.(y := currentPiece.y - 1);
        LockPiece(pick);
      }
    }

    /** `hardDrop`; its callers run it only while the game is not over. */
    method HardDrop(pick: Kind)
      requires Valid() && !isGameOver
      modifies this
      ensures HasBlock(old(currentPiece).shape)
      ensures Valid() && Snapshot() == AfterHardDrop(old(Snapshot()), pick)
    {
      ghost var s := Snapshot();
      ghost var p0 := currentPiece;
      HardDropValid(s, pick);
      LandedValid(s);
      while !Collide(grid, currentPiece)
        invariant Snapshot() == s.(currentPiece := currentPiece)
        invariant currentPiece == At(p0, currentPiece.y) && p0.y <= currentPiece.y
        invariant FirstCollision(grid, p0, currentPiece.y) == FirstCollision(grid, p0, p0.y)
        decreases ROWS - currentPiece.y
      {
        FreeIsAboveFloor(grid, currentPiece);
        currentPiece := currentPiece.(y := currentPiece.y + 1);
      }
      currentPiece := currentPiece.(y := currentPiece.y - 1);
      ghost var landed := s.(currentPiece := At(s.currentPiece, Landing(s.grid, s.currentPiece)));
      assert Snapshot() == landed;
      LockPiece(pick);
      assert AfterHardDrop(s, pick) == AfterLock(landed, pick);
    }

    /** `rotatePiece(clockwise)`. */
    method RotatePiece(clockwise: bool)
      requires Valid()
      modifies this
      ensures IsSquare(old(currentPiece).shape)
      ensures Valid() && Snapshot() == AfterRotate(old(Snapshot()), clockwise)
    {
      RotateValid(Snapshot(), clockwise);
      var rotated := Rotated(currentPiece.shape, clockwise);
      var prevShape := currentPiece.shape;
      currentPiece := currentPiece.(shape := rotated);
      if Collide(grid, currentPiece) {
        currentPiece := currentPiece.(shape := prevShape);
      }
    }

    /** `holdPiece`. */
    method HoldPiece(pick: Kind)
      requires Valid()
      modifies this
      ensures Valid() && Snapshot() == AfterHold(old(Snapshot()), pick)
    {
      HoldValid(Snapshot(), pick);
      if !canHold {
        return;
      }
      if heldPiece.Some? {
        var temp := currentPiece;
        currentPiece := heldPiece.value;
        heldPiece := Some(temp);
        currentPiece := currentPiece.(x := SPAWN_X);
        currentPiece := currentPiece.(y := SPAWN_Y);
      } else {
        heldPiece := Some(currentPiece);
        currentPiece := nextPiece;
        nextPiece := RandomPiece(pick);
      }
      canHold := false;
      if Collide(grid, currentPiece) {
        isGameOver := true;
      }
    }

    /** `togglePause`: the flag only. */
    method TogglePause()
      requires Valid()
      modifies this
      ensures Valid() && Snapshot() == AfterTogglePause(old(Snapshot()))
    {
      isPaused := !isPaused;
    }

    /** `resetGame`: the state only; `first` and `second` are the two random picks. */
    method ResetGame(first: Kind, second: Kind)
      modifies this
      ensures Valid() && Snapshot() == AfterReset(old(Snapshot()), first, second)
    {
      ghost var r := AfterReset(Snapshot(), first, second);
      ResetValid(Snapshot(), first, second);
      grid := EmptyGrid();
      currentPiece := RandomPiece(first);
      nextPiece := RandomPiece(second);
      isGameOver := false;
      score := 0;
      lines := 0;
      heldPiece := None;
      canHold := true;
      assert Snapshot() == r;
      UpdateScore(0);
      UpdateLines(0);
    }

    /** `update(deltaTime)`; the animation loop runs it only while the game is not over. */
    method Update(deltaTime: int, pick: Kind)
      requires Valid() && !isGameOver
      modifies this
      ensures Valid() && Snapshot() == AfterUpdate(old(Snapshot()), deltaTime, pick)
    {
      ghost var s := Snapshot();
      UpdateTiming(s, deltaTime, pick);
      UpdateValid(s, deltaTime, pick);
      if isPaused {
        return;
      }
      dropCounter := dropCounter + deltaTime;
      if dropCounter > DROP_INTERVAL {
        DropIgnoresTimer(s, dropCounter, pick);
        DropPiece(pick);
        dropCounter := 0;
      }
    }

    /**
     * One frame of `animate(time)`, without drawing and without asking for
     * the next frame: the frame time is recorded, and the game updated by the
     * time elapsed unless it is over.
     */
    method Animate(time: int, pick: Kind)
      requires Valid()
      modifies this
      ensures Valid() && Snapshot() == AfterAnimate(old(Snapshot()), time, pick)
    {
      ghost var s := Snapshot();
      TimerFree(s, s.dropCounter, time);
      var deltaTime := time - lastTime;
      lastTime := time;
      AnimateSteps(s, Snapshot(), time, deltaTime, pick);
      if !isGameOver {
        Update(deltaTime, pick);
      }
    }
  }

  /**
   * The grid during the sweep of `clearLines`: `cleared` empty rows on top,
   * then the original rows not yet looked at, then the original rows already
   * looked at that were not full.
   */
  ghost function Sweep(g0: Grid, j: int, cleared: nat): Grid
    requires 0 <= j <= |g0|
  {
    EmptyRows(cleared) + g0[..j] + NonFullRows(g0[j..])
  }

  /** Grid row `cleared + j - 1` of the sweep holds original row `j - 1`. */
  lemma SweepRow(g0: Grid, j: int, cleared: nat, grid: Grid, y: int)
    requires WellFormedGrid(g0) && 0 < j <= ROWS
    requires grid == Sweep(g0, j, cleared) && y == cleared + j - 1
    ensures 0 <= y < |grid| && grid[y] == g0[j - 1]
  {
    RowsSplit(g0[j..]);
  }

  /** A full row looked at is spliced out and an empty row put on top: one more row cleared. */
  lemma SweepFull(g0: Grid, j: int, cleared: nat, grid: Grid, y: int)
    requires WellFormedGrid(g0) && 0 < j <= ROWS && RowFull(g0[j - 1])
    requires grid == Sweep(g0, j, cleared) && y == cleared + j - 1
    ensures 0 <= y < |grid|
    ensures [EmptyRow()] + grid[..y] + grid[y + 1..] == Sweep(g0, j - 1, cleared + 1)
    ensures FullRowCount(g0[j - 1..]) == FullRowCount(g0[j..]) + 1
  {
    RowsSplit(g0[j..]);
    assert g0[j - 1..][1..] == g0[j..];
    assert g0[..j] == g0[..j - 1] + [g0[j - 1]];
    assert grid[..y] == EmptyRows(cleared) + g0[..j - 1];
    assert grid[y + 1..] == NonFullRows(g0[j..]);
    assert [EmptyRow()] + EmptyRows(cleared) == EmptyRows(cleared + 1);
  }

  /** A row that is not full is kept where it is. */
  lemma SweepKeep(g0: Grid, j: int, cleared: nat, grid: Grid)
    requires WellFormedGrid(g0) && 0 < j <= ROWS && !RowFull(g0[j - 1])
    requires grid == Sweep(g0, j, cleared)
    ensures grid == Sweep(g0, j - 1, cleared)
    ensures FullRowCount(g0[j - 1..]) == FullRowCount(g0[j..])
  {
    assert g0[j - 1..][1..] == g0[j..];
    assert g0[..j] == g0[..j - 1] + [g0[j - 1]];
  }

  /** Once every original row has been looked at, the rows left to look at are empty ones. */
  lemma SweepTopNotFull(g0: Grid, cleared: nat, grid: Grid, y: int)
    requires grid == Sweep(g0, 0, cleared) && 0 <= y < cleared
    ensures y < |grid| && !RowFull(grid[y])
  {
    assert grid[y] == EmptyRow();
    assert EmptyRow()[0] == Empty;
  }

  /** The finished sweep is the cleared grid. */
  lemma SweepDone(g0: Grid, cleared: nat)
    requires cleared == FullRowCount(g0[0..])
    ensures Sweep(g0, 0, cleared) == Cleared(g0) && cleared == FullRowCount(g0)
  {
    assert g0[0..] == g0;
    assert g0[..0] == [];
  }
}
