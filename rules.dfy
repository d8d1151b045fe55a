/**
 * What each method of the `Game` class in js/main.js leaves behind, as a
 * function on `State`, and what those functions keep and promise.
 */
module Rules {
  import opened Shapes
  import opened Pieces
  import opened Board
  import opened GameState

  // ------------------------------------------------------------ transitions

  /** The state the constructor builds from the two spawned kinds. */
  function Initial(first: Kind, second: Kind): State {
    State(EmptyGrid(), RandomPiece(first), RandomPiece(second), None,
          true, false, false, 0, 0, 0, 0)
  }

  /** `movePiece(dir)`: shift by `dir` columns unless that collides. */
  function AfterMove(s: State, dir: int): (r: State)
    requires WellFormedGrid(s.grid)
    ensures Collide(s.grid, s.currentPiece.(x := s.currentPiece.x + dir)) ==> r == s
    ensures !Collide(s.grid, s.currentPiece.(x := s.currentPiece.x + dir)) ==>
      r == s.(currentPiece := s.currentPiece.(x := s.currentPiece.x + dir))
    ensures !Collide(s.grid, s.currentPiece) ==> !Collide(r.grid, r.currentPiece)
  {
    var moved := s.currentPiece.(x := s.currentPiece.x + dir);
    if Collide(s.grid, moved) then s else s.(currentPiece := moved)
  }

  /** `rotatePiece(clockwise)`: turn the shape unless that collides; no wall kicks. */
  function AfterRotate(s: State, clockwise: bool): (r: State)
    requires WellFormedGrid(s.grid) && IsSquare(s.currentPiece.shape)
    ensures Collide(s.grid, s.currentPiece.(shape := Rotate(s.currentPiece.shape, clockwise))) ==> r == s
    ensures !Collide(s.grid, s.currentPiece.(shape := Rotate(s.currentPiece.shape, clockwise))) ==>
      r == s.(currentPiece := s.currentPiece.(shape := Rotate(s.currentPiece.shape, clockwise)))
    ensures !Collide(s.grid, s.currentPiece) ==> !Collide(r.grid, r.currentPiece)
  {
    var turned := s.currentPiece.(shape := Rotate(s.currentPiece.shape, clockwise));
    if Collide(s.grid, turned) then s else s.(currentPiece := turned)
  }

  /**
   * `clearLines`: the grid swept of its full rows, and, if any were removed,
   * the score and line counters set (not increased) to 100 per row and to the
   * number of rows.
   */
  function AfterClearLines(s: State): State
    requires WellFormedGrid(s.grid)
  {
    var k := FullRowCount(s.grid);
    s.(grid := Cleared(s.grid),
       score := if k > 0 then 100 * k else s.score,
       lines := if k > 0 then k else s.lines)
  }

  /**
   * The lock sequence shared by `dropPiece` and `hardDrop`: merge the current
   * piece, clear lines, re-arm hold, promote the next piece, spawn a new
   * one of kind `pick`, and end the game if the promoted piece collides.
   */
  function AfterLock(s: State, pick: Kind): State
    requires WellFormedGrid(s.grid)
  {
    var c := AfterClearLines(s.(grid := Merged(s.grid, s.currentPiece)));
    c.(canHold := true,
       currentPiece := s.nextPiece,
       nextPiece := RandomPiece(pick),
       isGameOver := s.isGameOver || Collide(c.grid, s.nextPiece))
  }

  /** `dropPiece`: one row down, or lock where the piece is if that row is taken. */
  function AfterDrop(s: State, pick: Kind): State
    requires WellFormedGrid(s.grid)
  {
    var down := At(s.currentPiece, s.currentPiece.y + 1);
    if Collide(s.grid, down) then AfterLock(s, pick) else s.(currentPiece := down)
  }

  /** `hardDrop`: move to the landing row, then lock. */
  function AfterHardDrop(s: State, pick: Kind): State
    requires WellFormedGrid(s.grid) && HasBlock(s.currentPiece.shape)
  {
    var landed := At(s.currentPiece, Landing(s.grid, s.currentPiece));
    AfterLock(s.(currentPiece := landed), pick)
  }

  /**
   * `holdPiece`: when allowed, swap with the held piece (which comes back at
   * column 3, row 0 with the shape it had) or, with none held, hold the
   * current piece and promote the next one; either way hold is then locked
   * and the game ends if the new current piece collides.
   */
  function AfterHold(s: State, pick: Kind): State
    requires WellFormedGrid(s.grid)
  {
    if !s.canHold then s
    else
      var t := if s.heldPiece.Some?
        then s.(currentPiece := s.heldPiece.value.(x := SPAWN_X, y := SPAWN_Y), heldPiece := Some(s.currentPiece))
        else s.(heldPiece := Some(s.currentPiece), currentPiece := s.nextPiece, nextPiece := RandomPiece(pick));
      t.(canHold := false, isGameOver := t.isGameOver || Collide(t.grid, t.currentPiece))
  }

  /** `togglePause`, without the modal and the frame request. */
  function AfterTogglePause(s: State): State {
    s.(isPaused := !s.isPaused)
  }

  /** `resetGame`: a new board, two new pieces, counters and flags back to the start; pause and timer untouched. */
  function AfterReset(s: State, first: Kind, second: Kind): State {
    s.(grid := EmptyGrid(), currentPiece := RandomPiece(first), nextPiece := RandomPiece(second),
       isGameOver := false, score := 0, lines := 0, heldPiece := None, canHold := true)
  }

  /** `update(deltaTime)`: nothing while paused; past the interval, drop once and restart the timer. */
  function AfterUpdate(s: State, deltaTime: int, pick: Kind): State
    requires WellFormedGrid(s.grid)
  {
    if s.isPaused then s
    else
      var counter := s.dropCounter + deltaTime;
      if counter > DROP_INTERVAL then AfterDrop(s.(dropCounter := counter), pick).(dropCounter := 0)
      else s.(dropCounter := counter)
  }

  /** One frame of `animate(time)`: the elapsed time is measured, and the game updated unless it is over. */
  function AfterAnimate(s: State, time: int, pick: Kind): State
    requires WellFormedGrid(s.grid)
  {
    var t := s.(lastTime := time);
    if s.isGameOver then t else AfterUpdate(t, time - s.lastTime, pick)
  }

  // ------------------------------------------------------------ invariant

  lemma RandomPieceWellFormed(k: Kind)
    ensures WellFormedPiece(RandomPiece(k))
  {
    RandomPieceOriented(k);
  }

  /** The game starts valid: the first piece is free on the empty board. */
  lemma InitialValid(first: Kind, second: Kind)
    ensures ValidState(Initial(first, second))
  {
    RandomPieceWellFormed(first);
    BaseShapeFacts(first);
    SpawnFreeOnEmpty(RandomPiece(first));
  }

  lemma ResetValid(s: State, first: Kind, second: Kind)
    ensures ValidState(AfterReset(s, first, second))
    ensures !AfterReset(s, first, second).isGameOver
  {
    RandomPieceWellFormed(first);
    BaseShapeFacts(first);
    SpawnFreeOnEmpty(RandomPiece(first));
  }

  lemma MoveValid(s: State, dir: int)
    requires ValidState(s)
    ensures ValidState(AfterMove(s, dir))
  {
  }

  lemma RotateValid(s: State, clockwise: bool)
    requires ValidState(s)
    ensures IsSquare(s.currentPiece.shape) && ValidState(AfterRotate(s, clockwise))
  {
    RotateKeepsOrientation(s.currentPiece.shape, s.currentPiece.kind, clockwise);
  }

  /** The lock sequence keeps the invariant, leaves no full row and re-arms hold. */
  lemma LockValid(s: State, pick: Kind)
    requires ValidState(s)
    ensures ValidState(AfterLock(s, pick))
    ensures forall r :: 0 <= r < ROWS ==> !RowFull(AfterLock(s, pick).grid[r])
  {
    ClearedFacts(Merged(s.grid, s.currentPiece));
    RandomPieceWellFormed(s.nextPiece.kind);
    RandomPieceWellFormed(pick);
  }

  lemma DropValid(s: State, pick: Kind)
    requires ValidState(s)
    ensures ValidState(AfterDrop(s, pick))
  {
    LockValid(s, pick);
  }

  /** The piece lands on a row at or below its own, free there, so the landed state is valid too. */
  lemma LandedValid(s: State)
    requires ValidState(s) && !s.isGameOver
    ensures HasBlock(s.currentPiece.shape)
    ensures ValidState(s.(currentPiece := At(s.currentPiece, Landing(s.grid, s.currentPiece))))
  {
    OrientationFacts(s.currentPiece.shape, s.currentPiece.kind);
    LandingIff(s.grid, s.currentPiece, Landing(s.grid, s.currentPiece));
  }

  lemma HardDropValid(s: State, pick: Kind)
    requires ValidState(s) && !s.isGameOver
    ensures HasBlock(s.currentPiece.shape) && ValidState(AfterHardDrop(s, pick))
  {
    LandedValid(s);
    LockValid(s.(currentPiece := At(s.currentPiece, Landing(s.grid, s.currentPiece))), pick);
  }

  lemma HoldValid(s: State, pick: Kind)
    requires ValidState(s)
    ensures ValidState(AfterHold(s, pick))
  {
    RandomPieceWellFormed(s.nextPiece.kind);
    RandomPieceWellFormed(pick);
  }

  lemma UpdateValid(s: State, deltaTime: int, pick: Kind)
    requires ValidState(s)
    ensures ValidState(AfterUpdate(s, deltaTime, pick))
  {
    UpdateTiming(s, deltaTime, pick);
    DropValid(s, pick);
    var d := AfterDrop(s, pick);
    TimerFree(d, 0, d.lastTime);
    TimerFree(s, s.dropCounter + deltaTime, s.lastTime);
  }

  /**
   * A frame records its time `m` and, unless the game is over, updates the
   * game by the elapsed time `deltaTime`.
   */
  lemma AnimateSteps(s: State, m: State, time: int, deltaTime: int, pick: Kind)
    requires WellFormedGrid(s.grid) && m == s.(lastTime := time) && deltaTime == time - s.lastTime
    ensures s.isGameOver ==> AfterAnimate(s, time, pick) == m
    ensures !s.isGameOver ==> AfterAnimate(s, time, pick) == AfterUpdate(m, deltaTime, pick)
  {
  }

  // ------------------------------------------------------------ properties

  /**
   * Locking a free piece writes its colour into its cells, which were empty;
   * the grid is then swept, hold is re-armed, the next piece comes in, and
   * the game is over exactly when that piece collides.
   */
  lemma LockFacts(s: State, pick: Kind)
    requires ValidState(s) && !s.isGameOver
    ensures OnBoard(s.currentPiece)
    ensures var m := Merged(s.grid, s.currentPiece);
      && (forall i, j :: IsFilled(s.currentPiece.shape, i, j) ==>
            s.grid[s.currentPiece.y + i][s.currentPiece.x + j] == Empty &&
            m[s.currentPiece.y + i][s.currentPiece.x + j] == Block(s.currentPiece.color))
      && AfterLock(s, pick).grid == Cleared(m)
    ensures var r := AfterLock(s, pick);
      && r.canHold && r.currentPiece == s.nextPiece && r.nextPiece == RandomPiece(pick)
      && r.heldPiece == s.heldPiece
      && (r.isGameOver <==> Collide(r.grid, r.currentPiece))
  {
    MergeWritesExactly(s.grid, s.currentPiece);
  }

  /**
   * A hard drop locks the piece on the row where `getGhostPiece` puts it, and
   * locks it on the same row a run of soft drops would.
   */
  lemma HardDropIsRepeatedDrop(s: State, pick: Kind)
    requires ValidState(s) && !s.isGameOver
    ensures HasBlock(s.currentPiece.shape)
    ensures var l := Landing(s.grid, s.currentPiece);
      && s.currentPiece.y <= l
      && AfterDrop(s.(currentPiece := At(s.currentPiece, l)), pick) == AfterHardDrop(s, pick)
      && forall t :: s.currentPiece.y <= t < l ==>
           AfterDrop(s.(currentPiece := At(s.currentPiece, t)), pick) == s.(currentPiece := At(s.currentPiece, t + 1))
  {
    OrientationFacts(s.currentPiece.shape, s.currentPiece.kind);
    var l := Landing(s.grid, s.currentPiece);
    LandingIff(s.grid, s.currentPiece, l);
    assert At(At(s.currentPiece, l), l + 1) == At(s.currentPiece, l + 1);
    forall t | s.currentPiece.y <= t < l
      ensures AfterDrop(s.(currentPiece := At(s.currentPiece, t)), pick) == s.(currentPiece := At(s.currentPiece, t + 1))
    {
      assert At(At(s.currentPiece, t), t + 1) == At(s.currentPiece, t + 1);
      assert !Collide(s.grid, At(s.currentPiece, t + 1));
    }
  }

  /** `holdPiece` clears `canHold`; with `canHold` already false it does nothing, so a second hold is a no-op. */
  lemma HoldOncePerLock(s: State, pick: Kind, pick2: Kind)
    requires WellFormedGrid(s.grid)
    ensures !AfterHold(s, pick).canHold
    ensures !s.canHold ==> AfterHold(s, pick) == s
    ensures AfterHold(AfterHold(s, pick), pick2) == AfterHold(s, pick)
  {
  }

  /**
   * A permitted hold on a running game swaps with the held piece, which comes
   * back at the spawn position with the shape it had, or, with none held,
   * holds the current piece and brings in the next; the grid is untouched and
   * the game is over exactly when the new current piece collides.
   */
  lemma HoldFacts(s: State, pick: Kind)
    requires ValidState(s) && !s.isGameOver && s.canHold
    ensures var r := AfterHold(s, pick);
      && r.grid == s.grid && !r.canHold && r.heldPiece == Some(s.currentPiece)
      && (s.heldPiece.Some? ==>
            && r.currentPiece.shape == s.heldPiece.value.shape && r.currentPiece.kind == s.heldPiece.value.kind
            && r.currentPiece.x == SPAWN_X && r.currentPiece.y == SPAWN_Y && r.nextPiece == s.nextPiece)
      && (s.heldPiece.None? ==> r.currentPiece == s.nextPiece && r.nextPiece == RandomPiece(pick))
      && (r.isGameOver <==> Collide(r.grid, r.currentPiece))
  {
  }

  /** Locking a piece sets `canHold` again (as `resetGame` does, see AfterReset). */
  lemma LockRearmsHold(s: State, pick: Kind)
    requires WellFormedGrid(s.grid)
    ensures AfterLock(s, pick).canHold
  {
  }

  /** Moving, rotating and pausing leave `canHold` as it was. */
  lemma OtherOpsKeepHold(s: State, dir: int, clockwise: bool)
    requires ValidState(s)
    ensures AfterMove(s, dir).canHold == s.canHold
    ensures IsSquare(s.currentPiece.shape) && AfterRotate(s, clockwise).canHold == s.canHold
    ensures AfterTogglePause(s).canHold == s.canHold
  {
    OrientationFacts(s.currentPiece.shape, s.currentPiece.kind);
  }

  /** A drop that does not lock moves the piece one row down and changes nothing else, `canHold` included. */
  lemma SoftDropKeepsHold(s: State, pick: Kind)
    requires WellFormedGrid(s.grid) && !Collide(s.grid, At(s.currentPiece, s.currentPiece.y + 1))
    ensures AfterDrop(s, pick) == s.(currentPiece := At(s.currentPiece, s.currentPiece.y + 1))
    ensures AfterDrop(s, pick).canHold == s.canHold
  {
  }

  /**
   * Once the game is over, no operation but reset clears the flag; and the
   * animation frame no longer updates anything but the frame time.
   */
  lemma GameOverSticky(s: State, pick: Kind, dir: int, clockwise: bool, dt: int, time: int)
    requires ValidState(s) && s.isGameOver
    ensures AfterMove(s, dir).isGameOver
    ensures IsSquare(s.currentPiece.shape) && AfterRotate(s, clockwise).isGameOver
    ensures AfterLock(s, pick).isGameOver
    ensures AfterDrop(s, pick).isGameOver
    ensures HasBlock(s.currentPiece.shape) && AfterHardDrop(s, pick).isGameOver
    ensures AfterHold(s, pick).isGameOver
    ensures AfterTogglePause(s).isGameOver
    ensures AfterUpdate(s, dt, pick).isGameOver
    ensures AfterAnimate(s, time, pick) == s.(lastTime := time)
  {
    OrientationFacts(s.currentPiece.shape, s.currentPiece.kind);
  }

  /**
   * On an empty board an O piece dropped from the spawn position lands with
   * its lower row on the bottom row and clears nothing.
   */
  lemma HardDropOOnEmpty(s: State, pick: Kind)
    requires ValidState(s) && s.grid == EmptyGrid() && s.currentPiece == RandomPiece(O)
    ensures HasBlock(s.currentPiece.shape)
    ensures Landing(s.grid, s.currentPiece) == ROWS - 2
    ensures AfterHardDrop(s, pick).score == s.score && AfterHardDrop(s, pick).lines == s.lines
  {
    var p := s.currentPiece;
    BaseShapeFacts(O);
    OrientationFacts(p.shape, O);
    forall t | 0 <= t <= ROWS - 2 ensures !Collide(s.grid, At(p, t)) {
      CollideIff(s.grid, At(p, t));
    }
    CollideIff(s.grid, At(p, ROWS - 1));
    assert IsFilled(p.shape, 1, 0);
    LandingIff(s.grid, p, ROWS - 2);
    var m := Merged(s.grid, At(p, ROWS - 2));
    forall r | 0 <= r < ROWS ensures !RowFull(m[r]) {
      assert !Covers(At(p, ROWS - 2), r, 0);
      assert m[r][0] == Empty;
    }
    NoFullRowsKept(m);
  }

  /** A move that went through is undone by the opposite move: the old position is still free. */
  lemma MoveUndo(s: State, dir: int)
    requires ValidState(s) && !s.isGameOver && AfterMove(s, dir) != s
    ensures AfterMove(AfterMove(s, dir), -dir) == s
  {
    var moved := s.currentPiece.(x := s.currentPiece.x + dir);
    assert AfterMove(s, dir) == s.(currentPiece := moved);
    assert moved.(x := moved.x + -dir) == s.currentPiece;
  }

  /** A rotation that went through is undone by the rotation the other way. */
  lemma RotateUndo(s: State, clockwise: bool)
    requires ValidState(s) && !s.isGameOver
    ensures IsSquare(s.currentPiece.shape) && IsSquare(AfterRotate(s, clockwise).currentPiece.shape)
    ensures AfterRotate(s, clockwise) != s ==> AfterRotate(AfterRotate(s, clockwise), !clockwise) == s
  {
    var shape := s.currentPiece.shape;
    OrientationFacts(shape, s.currentPiece.kind);
    var turned := s.currentPiece.(shape := Rotate(shape, clockwise));
    if AfterRotate(s, clockwise) != s {
      assert AfterRotate(s, clockwise) == s.(currentPiece := turned);
      if clockwise { CCWUndoesCW(shape); } else { CWUndoesCCW(shape); }
      assert turned.(shape := Rotate(turned.shape, !clockwise)) == s.currentPiece;
    }
  }

  // The pause-flag lemmas below say the piece operations neither read nor write
  // `isPaused`: `t` is `s` with the flag set to `paused`.

  lemma MoveIgnoresPause(s: State, t: State, paused: bool, dir: int)
    requires WellFormedGrid(s.grid) && t == s.(isPaused := paused)
    ensures AfterMove(t, dir) == AfterMove(s, dir).(isPaused := paused)
  {
    assert t.grid == s.grid && t.currentPiece == s.currentPiece;
  }

  lemma RotateIgnoresPause(s: State, t: State, paused: bool, clockwise: bool)
    requires WellFormedGrid(s.grid) && IsSquare(s.currentPiece.shape) && t == s.(isPaused := paused)
    ensures AfterRotate(t, clockwise) == AfterRotate(s, clockwise).(isPaused := paused)
  {
    assert t.grid == s.grid && t.currentPiece == s.currentPiece;
  }

  lemma LockIgnoresPause(s: State, t: State, paused: bool, pick: Kind)
    requires WellFormedGrid(s.grid) && t == s.(isPaused := paused)
    ensures AfterLock(t, pick) == AfterLock(s, pick).(isPaused := paused)
  {
    assert t.grid == s.grid && t.currentPiece == s.currentPiece;
    var ct := AfterClearLines(t.(grid := Merged(t.grid, t.currentPiece)));
    var cs := AfterClearLines(s.(grid := Merged(s.grid, s.currentPiece)));
    assert ct == cs.(isPaused := paused);
  }

  lemma DropIgnoresPause(s: State, t: State, paused: bool, pick: Kind)
    requires WellFormedGrid(s.grid) && t == s.(isPaused := paused)
    ensures AfterDrop(t, pick) == AfterDrop(s, pick).(isPaused := paused)
  {
    assert t.grid == s.grid && t.currentPiece == s.currentPiece;
    LockIgnoresPause(s, t, paused, pick);
  }

  lemma HardDropIgnoresPause(s: State, t: State, paused: bool, pick: Kind)
    requires WellFormedGrid(s.grid) && HasBlock(s.currentPiece.shape) && t == s.(isPaused := paused)
    ensures AfterHardDrop(t, pick) == AfterHardDrop(s, pick).(isPaused := paused)
  {
    assert t.grid == s.grid && t.currentPiece == s.currentPiece;
    var landed := At(s.currentPiece, Landing(s.grid, s.currentPiece));
    LockIgnoresPause(s.(currentPiece := landed), t.(currentPiece := landed), paused, pick);
  }

  lemma HoldIgnoresPause(s: State, t: State, paused: bool, pick: Kind)
    requires WellFormedGrid(s.grid) && t == s.(isPaused := paused)
    ensures AfterHold(t, pick) == AfterHold(s, pick).(isPaused := paused)
  {
    assert t.grid == s.grid && t.currentPiece == s.currentPiece && t.canHold == s.canHold;
  }

  /** Locking and dropping neither read nor write the drop timer. */
  lemma DropIgnoresTimer(s: State, counter: int, pick: Kind)
    requires WellFormedGrid(s.grid)
    ensures AfterLock(s.(dropCounter := counter), pick) == AfterLock(s, pick).(dropCounter := counter)
    ensures AfterDrop(s.(dropCounter := counter), pick) == AfterDrop(s, pick).(dropCounter := counter)
  {
    var t := s.(dropCounter := counter);
    assert t.grid == s.grid && t.currentPiece == s.currentPiece;
    var ct := AfterClearLines(t.(grid := Merged(t.grid, t.currentPiece)));
    var cs := AfterClearLines(s.(grid := Merged(s.grid, s.currentPiece)));
    assert ct == cs.(dropCounter := counter);
  }

  /**
   * `update` drops the piece only once more than DROP_INTERVAL ms have built
   * up, and then exactly as `dropPiece` would, restarting the timer; while
   * paused it does nothing.
   */
  lemma UpdateTiming(s: State, deltaTime: int, pick: Kind)
    requires ValidState(s)
    ensures s.isPaused ==> AfterUpdate(s, deltaTime, pick) == s
    ensures !s.isPaused && s.dropCounter + deltaTime <= DROP_INTERVAL ==>
      AfterUpdate(s, deltaTime, pick) == s.(dropCounter := s.dropCounter + deltaTime)
    ensures !s.isPaused && s.dropCounter + deltaTime > DROP_INTERVAL ==>
      AfterUpdate(s, deltaTime, pick) == AfterDrop(s, pick).(dropCounter := 0)
  {
    var counter := s.dropCounter + deltaTime;
    DropIgnoresTimer(s, counter, pick);
    assert AfterDrop(s, pick).(dropCounter := counter).(dropCounter := 0) == AfterDrop(s, pick).(dropCounter := 0);
  }
}
