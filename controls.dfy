/**
 * The keyboard dispatcher of js/controls.js: a fixed table from key codes to
 * game operations, and the keydown handler, which ignores every key once the
 * game is over and otherwise runs the operation the table names, if any.
 *
 * The kinds `first` and `second` stand for the random picks the operation
 * makes: `first` for the piece spawned by a lock or a hold, both for reset.
 */
module Controls {
  import opened Shapes
  import opened Pieces
  import opened GameState
  import opened Rules
  import opened Engine

  /** The operations the key table names; `ToggleMusic` is the audio switch, which leaves the game alone. */
  datatype Action =
    | Move(dir: int)
    | SoftDrop
    | Turn(clockwise: bool)
    | HardDrop
    | Hold
    | Pause
    | Reset
    | ToggleMusic

  /** The `keyActions` table. */
  const KEY_ACTIONS: map<string, Action> := map[
    "ArrowLeft" := Move(-1),
    "ArrowRight" := Move(1),
    "ArrowDown" := SoftDrop,
    "ArrowUp" := Turn(true),
    "KeyX" := Turn(true),
    "KeyZ" := Turn(false),
    "Space" := HardDrop,
    "KeyC" := Hold,
    "KeyP" := Pause,
    "KeyR" := Reset,
    "KeyM" := ToggleMusic]

  /** The table lookup `keyActions[event.code]`. */
  function KeyAction(code: string): (r: Option<Action>)
    ensures r.Some? <==> code in KEY_ACTIONS
    ensures r.Some? ==> r.value == KEY_ACTIONS[code]
  {
    if code in KEY_ACTIONS then Some(KEY_ACTIONS[code]) else None
  }

  /** What running action `a` does to a game that is not over. */
  function Perform(s: State, a: Action, first: Kind, second: Kind): (r: State)
    requires ValidState(s) && !s.isGameOver
    ensures ValidState(r)
  {
    match a
    case Move(dir) => MoveValid(s, dir); AfterMove(s, dir)
    case SoftDrop => DropValid(s, first); AfterDrop(s, first)
    case Turn(clockwise) => RotateValid(s, clockwise); AfterRotate(s, clockwise)
    case HardDrop => HardDropValid(s, first); AfterHardDrop(s, first)
    case Hold => HoldValid(s, first); AfterHold(s, first)
    case Pause => AfterTogglePause(s)
    case Reset => ResetValid(s, first, second); AfterReset(s, first, second)
    case ToggleMusic => s
  }

  /** The keydown handler: the game-over guard first, then the lookup, then the action. */
  function KeySpec(s: State, code: string, first: Kind, second: Kind): (r: State)
    requires ValidState(s)
    ensures ValidState(r)
  {
    if s.isGameOver then s
    else match KeyAction(code)
      case None => s
      case Some(a) => Perform(s, a, first, second)
  }

  /** One key press, with the two random picks the operation it triggers may make. */
  datatype KeyPress = KeyPress(code: string, first: Kind, second: Kind)

  /** A run of key presses, handled one after another. */
  function RunKeys(s: State, presses: seq<KeyPress>): (r: State)
    requires ValidState(s)
    ensures ValidState(r)
    decreases |presses|
  {
    if presses == [] then s
    else
      var p := presses[0];
      RunKeys(KeySpec(s, p.code, p.first, p.second), presses[1..])
  }

  /** The keydown listener, run on `game` for the key `code`. */
  method HandleKey(game: Game, code: string, first: Kind, second: Kind)
    requires game.Valid()
    modifies game
    ensures game.Valid() && game.Snapshot() == KeySpec(old(game.Snapshot()), code, first, second)
  {
    if game.isGameOver {
      return;
    }
    var action := KeyAction(code);
    if action.None? {
      return;
    }
    KeySteps(game.Snapshot(), code, action.value, first, second);
    match action.value
    case Move(dir) => game.MovePiece(dir);
    case SoftDrop => game.DropPiece(first);
    case Turn(clockwise) => game.RotatePiece(clockwise);
    case HardDrop => game.HardDrop(first);
    case Hold => game.HoldPiece(first);
    case Pause => game.TogglePause();
    case Reset => game.ResetGame(first, second);
    case ToggleMusic =>
  }

  /** A mapped key on a running game performs the action the table gives for it. */
  lemma KeySteps(s: State, code: string, a: Action, first: Kind, second: Kind)
    requires ValidState(s) && !s.isGameOver && KeyAction(code) == Some(a)
    ensures HasBlock(s.currentPiece.shape) && IsSquare(s.currentPiece.shape)
    ensures KeySpec(s, code, first, second) == Perform(s, a, first, second)
    ensures a.Move? ==> Perform(s, a, first, second) == AfterMove(s, a.dir)
    ensures a.SoftDrop? ==> Perform(s, a, first, second) == AfterDrop(s, first)
    ensures a.Turn? ==> Perform(s, a, first, second) == AfterRotate(s, a.clockwise)
    ensures a.HardDrop? ==> Perform(s, a, first, second) == AfterHardDrop(s, first)
    ensures a.Hold? ==> Perform(s, a, first, second) == AfterHold(s, first)
    ensures a.Pause? ==> Perform(s, a, first, second) == AfterTogglePause(s)
    ensures a.Reset? ==> Perform(s, a, first, second) == AfterReset(s, first, second)
    ensures a.ToggleMusic? ==> Perform(s, a, first, second) == s
  {
    OrientationFacts(s.currentPiece.shape, s.currentPiece.kind);
  }

  // ------------------------------------------------------------ properties

  /** Once the game is over, no run of keys changes anything, reset included. */
  lemma {:induction false} GameOverIgnoresKeys(s: State, presses: seq<KeyPress>)
    requires ValidState(s) && s.isGameOver
    ensures RunKeys(s, presses) == s
    decreases |presses|
  {
    if presses != [] {
      var p := presses[0];
      assert KeySpec(s, p.code, p.first, p.second) == s;
      GameOverIgnoresKeys(s, presses[1..]);
    }
  }

  /** A key outside the table, or the music key, changes nothing. */
  lemma UnmappedKeyIgnored(s: State, code: string, first: Kind, second: Kind)
    requires ValidState(s) && (code !in KEY_ACTIONS || code == "KeyM")
    ensures KeySpec(s, code, first, second) == s
  {
  }

  /** What the table gives for each of its eleven codes. */
  lemma KeyCodes()
    ensures KeyAction("ArrowLeft") == Some(Move(-1)) && KeyAction("ArrowRight") == Some(Move(1))
    ensures KeyAction("ArrowDown") == Some(SoftDrop) && KeyAction("Space") == Some(HardDrop)
    ensures KeyAction("ArrowUp") == Some(Turn(true)) && KeyAction("KeyX") == Some(Turn(true))
    ensures KeyAction("KeyZ") == Some(Turn(false)) && KeyAction("KeyC") == Some(Hold)
    ensures KeyAction("KeyP") == Some(Pause) && KeyAction("KeyR") == Some(Reset)
    ensures KeyAction("KeyM") == Some(ToggleMusic)
  {
  }

  /** While the game runs, each mapped key performs its operation of the `Game` class. */
  lemma KeyTable(s: State, first: Kind, second: Kind)
    requires ValidState(s) && !s.isGameOver
    ensures IsSquare(s.currentPiece.shape) && HasBlock(s.currentPiece.shape)
    ensures KeySpec(s, "ArrowLeft", first, second) == AfterMove(s, -1)
    ensures KeySpec(s, "ArrowRight", first, second) == AfterMove(s, 1)
    ensures KeySpec(s, "ArrowDown", first, second) == AfterDrop(s, first)
    ensures KeySpec(s, "ArrowUp", first, second) == AfterRotate(s, true)
    ensures KeySpec(s, "KeyX", first, second) == AfterRotate(s, true)
    ensures KeySpec(s, "KeyZ", first, second) == AfterRotate(s, false)
    ensures KeySpec(s, "Space", first, second) == AfterHardDrop(s, first)
    ensures KeySpec(s, "KeyC", first, second) == AfterHold(s, first)
    ensures KeySpec(s, "KeyP", first, second) == AfterTogglePause(s)
    ensures KeySpec(s, "KeyR", first, second) == AfterReset(s, first, second)
  {
    KeyCodes();
    KeySteps(s, "ArrowLeft", Move(-1), first, second);
    KeySteps(s, "ArrowRight", Move(1), first, second);
    KeySteps(s, "ArrowDown", SoftDrop, first, second);
    KeySteps(s, "ArrowUp", Turn(true), first, second);
    KeySteps(s, "KeyX", Turn(true), first, second);
    KeySteps(s, "KeyZ", Turn(false), first, second);
    KeySteps(s, "Space", HardDrop, first, second);
    KeySteps(s, "KeyC", Hold, first, second);
    KeySteps(s, "KeyP", Pause, first, second);
    KeySteps(s, "KeyR", Reset, first, second);
  }

  /**
   * The handler never looks at the pause flag: in a paused game every key but
   * KeyP does what it does in a running one, and leaves the flag as it was.
   */
  lemma PauseNotConsulted(s: State, paused: bool, code: string, first: Kind, second: Kind)
    requires ValidState(s) && code != "KeyP"
    ensures ValidState(s.(isPaused := paused))
    ensures KeySpec(s.(isPaused := paused), code, first, second) == KeySpec(s, code, first, second).(isPaused := paused)
  {
    var t := s.(isPaused := paused);
    assert ValidState(t);
    if !s.isGameOver && code in KEY_ACTIONS {
      var a := KEY_ACTIONS[code];
      assert !a.Pause?;
      KeySteps(s, code, a, first, second);
      KeySteps(t, code, a, first, second);
      PerformIgnoresPause(s, t, paused, a, first, second);
    }
  }

  /** Every action but Pause neither reads nor writes the pause flag; `t` is `s` with the flag set to `paused`. */
  lemma PerformIgnoresPause(s: State, t: State, paused: bool, a: Action, first: Kind, second: Kind)
    requires ValidState(s) && !s.isGameOver && t == s.(isPaused := paused) && !a.Pause?
    ensures ValidState(t) && Perform(t, a, first, second) == Perform(s, a, first, second).(isPaused := paused)
  {
    OrientationFacts(s.currentPiece.shape, s.currentPiece.kind);
    match a
    case Move(dir) => MoveIgnoresPause(s, t, paused, dir);
    case SoftDrop => DropIgnoresPause(s, t, paused, first);
    case Turn(clockwise) => RotateIgnoresPause(s, t, paused, clockwise);
    case HardDrop => HardDropIgnoresPause(s, t, paused, first);
    case Hold => HoldIgnoresPause(s, t, paused, first);
    case Reset =>
    case ToggleMusic =>
  }

  /** The left and right arrows undo each other once the first of them has moved the piece. */
  lemma ArrowsUndo(s: State, first: Kind, second: Kind)
    requires ValidState(s) && !s.isGameOver
    ensures var r := KeySpec(s, "ArrowRight", first, second);
      r != s ==> KeySpec(r, "ArrowLeft", first, second) == s
    ensures var l := KeySpec(s, "ArrowLeft", first, second);
      l != s ==> KeySpec(l, "ArrowRight", first, second) == s
  {
    KeyTable(s, first, second);
    var r := AfterMove(s, 1);
    var l := AfterMove(s, -1);
    if r != s {
      MoveUndo(s, 1);
      KeyTable(r, first, second);
    }
    if l != s {
      MoveUndo(s, -1);
      KeyTable(l, first, second);
    }
  }

  /** KeyX and KeyZ undo each other once the first of them has turned the piece. */
  lemma TurnKeysUndo(s: State, first: Kind, second: Kind)
    requires ValidState(s) && !s.isGameOver
    ensures var r := KeySpec(s, "KeyX", first, second);
      r != s ==> KeySpec(r, "KeyZ", first, second) == s
    ensures var l := KeySpec(s, "KeyZ", first, second);
      l != s ==> KeySpec(l, "KeyX", first, second) == s
  {
    KeyTable(s, first, second);
    var r := AfterRotate(s, true);
    var l := AfterRotate(s, false);
    RotateUndo(s, true);
    RotateUndo(s, false);
    if r != s {
      KeyTable(r, first, second);
    }
    if l != s {
      KeyTable(l, first, second);
    }
  }
}
