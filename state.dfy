/**
 * The fields of the `Game` class in js/main.js as one value, and the invariant
 * every operation keeps.
 */
module GameState {
  import opened Pieces
  import opened Board

  datatype Option<T> = None | Some(value: T)

  /** `dropInterval`: milliseconds between two automatic drops. */
  const DROP_INTERVAL := 1000

  datatype State = State(
    grid: Grid,
    currentPiece: Piece,
    nextPiece: Piece,
    heldPiece: Option<Piece>,
    canHold: bool,
    isPaused: bool,
    isGameOver: bool,
    score: nat,
    lines: nat,
    dropCounter: int,
    lastTime: int)

  /** A piece the engine can hold: its kind's colour, one of its kind's orientations, at row 0 or below. */
  ghost predicate WellFormedPiece(p: Piece) {
    p.color == ColorOf(p.kind) && IsOrientation(p.shape, p.kind) && p.y >= 0
  }

  /**
   * What every operation keeps: a 20 x 10 grid, well-formed pieces, a next
   * piece fresh from the catalogue, and, while the game is not over, a
   * current piece that does not collide with the board or the locked cells.
   */
  ghost predicate ValidState(s: State) {
    && WellFormedGrid(s.grid)
    && WellFormedPiece(s.currentPiece)
    && s.nextPiece == RandomPiece(s.nextPiece.kind)
    && (s.heldPiece.Some? ==> WellFormedPiece(s.heldPiece.value))
    && (!s.isGameOver ==> !Collide(s.grid, s.currentPiece))
  }

  /** The invariant does not look at the timer fields. */
  lemma TimerFree(s: State, dropCounter: int, lastTime: int)
    ensures ValidState(s) <==> ValidState(s.(dropCounter := dropCounter, lastTime := lastTime))
  {
  }
}
