/**
 * The piece catalogue of js/pieces.js: seven tetromino kinds, each with one
 * colour and one base orientation, and `randomPiece`, which spawns a piece of
 * a chosen kind at column 3, row 0.
 */
module Pieces {
  import opened Shapes

  /** The keys of the COLORS and SHAPES tables, in table order. */
  datatype Kind = I | J | L | O | S | T | Z

  type Color = string

  /** A piece: its shape matrix, its colour, the board position of the matrix's top-left cell, and its kind. */
  datatype Piece = Piece(shape: Shape, color: Color, x: int, y: int, kind: Kind)

  const SPAWN_X := 3
  const SPAWN_Y := 0

  /** The COLORS table. */
  function ColorOf(k: Kind): Color {
    match k
    case I => "#00f0f0"
    case J => "#0000f0"
    case L => "#f0a000"
    case O => "#f0f000"
    case S => "#00f000"
    case T => "#a000f0"
    case Z => "#f00000"
  }

  /** The single orientation the SHAPES table stores per kind. */
  function BaseShape(k: Kind): Shape {
    match k
    case I => [[false, false, false, false],
               [true,  true,  true,  true ],
               [false, false, false, false],
               [false, false, false, false]]
    case J => [[true,  false, false],
               [true,  true,  true ],
               [false, false, false]]
    case L => [[false, false, true ],
               [true,  true,  true ],
               [false, false, false]]
    case O => [[true, true],
               [true, true]]
    case S => [[false, true,  true ],
               [true,  true,  false],
               [false, false, false]]
    case T => [[false, true,  false],
               [true,  true,  true ],
               [false, false, false]]
    case Z => [[true,  true,  false],
               [false, true,  true ],
               [false, false, false]]
  }

  /** `randomPiece`, with the random pick of a key given as `k`. */
  function RandomPiece(k: Kind): (p: Piece)
    ensures p.x == SPAWN_X && p.y == SPAWN_Y
    ensures p.shape == BaseShape(p.kind) && p.color == ColorOf(p.kind) && p.kind == k
  {
    Piece(BaseShape(k), ColorOf(k), SPAWN_X, SPAWN_Y, k)
  }

  /** The filled cells of each base shape, written out. */
  function BaseCells(k: Kind): set<(int, int)> {
    match k
    case I => {(1, 0), (1, 1), (1, 2), (1, 3)}
    case J => {(0, 0), (1, 0), (1, 1), (1, 2)}
    case L => {(0, 2), (1, 0), (1, 1), (1, 2)}
    case O => {(0, 0), (0, 1), (1, 0), (1, 1)}
    case S => {(0, 1), (0, 2), (1, 0), (1, 1)}
    case T => {(0, 1), (1, 0), (1, 1), (1, 2)}
    case Z => {(0, 0), (0, 1), (1, 1), (1, 2)}
  }

  /**
   * Every base shape is square (2 x 2 for O, 4 x 4 for I, 3 x 3 for the
   * others), and its filled cells are exactly the four listed in BaseCells,
   * all in matrix rows 0 and 1.
   */
  lemma BaseShapeFacts(k: Kind)
    ensures IsSquare(BaseShape(k))
    ensures |BaseShape(k)| == (match k case O => 2 case I => 4 case _ => 3)
    ensures FilledCells(BaseShape(k)) == BaseCells(k)
    ensures |FilledCells(BaseShape(k))| == 4
    ensures forall q :: q in FilledCells(BaseShape(k)) ==> 0 <= q.0 <= 1 && 0 <= q.1 < |BaseShape(k)|
  {
    FilledWithin(k);
    BaseCellsFilled(k);
    assert FilledCells(BaseShape(k)) == BaseCells(k);
    BaseCellsCount(k);
  }

  /** Each kind lists four distinct cells, in rows 0 and 1 and inside its matrix. */
  lemma BaseCellsCount(k: Kind)
    ensures |BaseCells(k)| == 4
    ensures forall q :: q in BaseCells(k) ==> 0 <= q.0 <= 1 && 0 <= q.1 < |BaseShape(k)|
  {
    match k
    case I =>
    case J =>
    case L =>
    case O =>
    case S =>
    case T =>
    case Z =>
  }

  /** Every filled cell of a base shape is listed in BaseCells. */
  lemma FilledWithin(k: Kind)
    ensures forall q :: q in FilledCells(BaseShape(k)) ==> q in BaseCells(k)
  {
    var s := BaseShape(k);
    forall q | q in FilledCells(s) ensures q in BaseCells(k) {
      FilledCellsMember(s, q);
      assert 0 <= q.0 < 4 && 0 <= q.1 < 4;
    }
  }

  /** Every cell listed in BaseCells is filled in the base shape. */
  lemma BaseCellsFilled(k: Kind)
    ensures forall q :: q in BaseCells(k) ==> q in FilledCells(BaseShape(k))
  {
    var s := BaseShape(k);
    forall q | q in BaseCells(k) ensures q in FilledCells(s) {
      FilledCellsMember(s, q);
    }
  }

  /** `s` is `b` turned clockwise 0 to 3 times. */
  ghost predicate TurnOf(s: Shape, b: Shape) {
    IsSquare(b) && (s == b || s == RotateCW(b) || s == RotateCW(RotateCW(b)) || s == RotateCW(RotateCW(RotateCW(b))))
  }

  /** The orientations a piece of kind `k` can have: its base shape turned clockwise 0 to 3 times. */
  ghost predicate IsOrientation(s: Shape, k: Kind) {
    TurnOf(s, BaseShape(k))
  }

  /** The four turns of a square matrix are closed under turning either way. */
  lemma TurnOfClosed(s: Shape, b: Shape, clockwise: bool)
    requires TurnOf(s, b)
    ensures IsSquare(s) && |s| == |b| && TurnOf(Rotate(s, clockwise), b)
  {
    var b1 := RotateCW(b);
    var b2 := RotateCW(b1);
    var b3 := RotateCW(b2);
    FourTurns(b);
    if !clockwise {
      CCWUndoesCW(b3);
      CCWUndoesCW(b2);
      CCWUndoesCW(b1);
      CCWUndoesCW(b);
      assert RotateCCW(b) == RotateCCW(RotateCW(b3));
    }
  }

  /** The turns of a square matrix all have its number of filled cells. */
  lemma TurnOfCount(s: Shape, b: Shape)
    requires TurnOf(s, b)
    ensures |FilledCells(s)| == |FilledCells(b)|
  {
    CWKeepsCount(b);
    CWKeepsCount(RotateCW(b));
    CWKeepsCount(RotateCW(RotateCW(b)));
  }

  /** Every orientation of a kind is square, of the base shape's size, with four filled cells. */
  lemma OrientationFacts(s: Shape, k: Kind)
    requires IsOrientation(s, k)
    ensures IsSquare(s) && |s| == |BaseShape(k)| && 2 <= |s| <= 4
    ensures |FilledCells(s)| == 4 && HasBlock(s)
  {
    BaseShapeFacts(k);
    TurnOfClosed(s, BaseShape(k), true);
    TurnOfCount(s, BaseShape(k));
    NonEmptyHasBlock(s);
  }

  /** Rotating either way keeps a shape among the orientations of its kind. */
  lemma RotateKeepsOrientation(s: Shape, k: Kind, clockwise: bool)
    requires IsOrientation(s, k)
    ensures IsSquare(s) && IsOrientation(Rotate(s, clockwise), k)
  {
    TurnOfClosed(s, BaseShape(k), clockwise);
  }

  /** A freshly spawned piece has its kind's base orientation. */
  lemma RandomPieceOriented(k: Kind)
    ensures IsOrientation(RandomPiece(k).shape, k)
  {
    BaseShapeFacts(k);
  }
}
