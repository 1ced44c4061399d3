/** The rules of the Snake game engine (class Snake of index.js) as functions on a value of
    the game state: reset, one timer tick, stop, start and command. The class in
    engine.dfy performs the same operations in place and is proved equal to these. */
module Rules {
  import opened Geometry

  /** The head directions 'u', 'd', 'l' and 'r'. */
  datatype Dir = Up | Down | Left | Right

  datatype Cell = Cell(col: int, row: int)

  datatype Option<T> = None | Some(value: T)

  /** The fields of a Snake. `dir` is the direction the head part carries, `pending` is
      `commandToExecute`, and `running` stands for "an interval is installed". */
  datatype SnakeState = SnakeState(parts: seq<Cell>, dir: Dir, fruit: Cell, score: int,
                                   pending: Option<Dir>, running: bool)

  /** The canvas calls of one redraw, in the order they are made. */
  datatype DrawCall = Clear | DrawHead(at: Cell, dir: Dir) | DrawFruit(at: Cell) | DrawBox(at: Cell)

  /** What one tick produces: the new state, whether the game-over callback fired,
      whether the score callback fired, and the redraw. */
  datatype TickResult = TickResult(state: SnakeState, gameOver: bool, scored: bool,
                                   frame: seq<DrawCall>)

  // ---------------------------------------------------------------- directions and keys

  /** The test `command` uses to reject a request: `newDir` reverses `dir`. */
  predicate Opposite(dir: Dir, newDir: Dir)
  {
    || (dir == Up && newDir == Down)
    || (dir == Down && newDir == Up)
    || (dir == Left && newDir == Right)
    || (dir == Right && newDir == Left)
  }

  /** Two cells that share a side. */
  predicate Adjacent(a: Cell, b: Cell)
  {
    || (a.col == b.col && (a.row == b.row + 1 || b.row == a.row + 1))
    || (a.row == b.row && (a.col == b.col + 1 || b.col == a.col + 1))
  }

  /** The switch on the head's direction: 'u' is one row up, 'd' one row down,
      'l' one column left, 'r' one column right. */
  function Move(c: Cell, d: Dir): (r: Cell)
    ensures Adjacent(c, r)
    ensures d == Up || d == Down ==> r.col == c.col
    ensures d == Left || d == Right ==> r.row == c.row
  {
    match d
    case Up => Cell(c.col, c.row - 1)
    case Down => Cell(c.col, c.row + 1)
    case Left => Cell(c.col - 1, c.row)
    case Right => Cell(c.col + 1, c.row)
  }

  /** A second step leads straight back into the cell just left exactly when its
      direction is the opposite of the first: the move `command` refuses. */
  lemma MoveBack(c: Cell, d: Dir, e: Dir)
    ensures Move(Move(c, d), e) == c <==> Opposite(d, e)
  {
  }

  /** The `buttonToDirection` table: the four arrow keys and nothing else. */
  function ButtonToDirection(key: string): Option<Dir>
  {
    if key == "ArrowUp" then Some(Up)
    else if key == "ArrowDown" then Some(Down)
    else if key == "ArrowLeft" then Some(Left)
    else if key == "ArrowRight" then Some(Right)
    else None
  }

  /** A direction has at most one key, and the control keys 'r' and 'p' are not
      direction keys. */
  lemma ButtonToDirectionInjective(k1: string, k2: string, d: Dir)
    requires ButtonToDirection(k1) == Some(d) && ButtonToDirection(k2) == Some(d)
    ensures k1 == k2
    ensures k1 != "r" && k1 != "p"
  {
  }

  /** Every direction has a key. */
  lemma ButtonToDirectionCovers(d: Dir)
    ensures exists k :: ButtonToDirection(k) == Some(d)
  {
    match d
    case Up => assert ButtonToDirection("ArrowUp") == Some(Up);
    case Down => assert ButtonToDirection("ArrowDown") == Some(Down);
    case Left => assert ButtonToDirection("ArrowLeft") == Some(Left);
    case Right => assert ButtonToDirection("ArrowRight") == Some(Right);
  }

  // ---------------------------------------------------------------- the grid

  predicate InGrid(b: SnakeBoard, c: Cell)
  {
    0 <= c.row < b.rows && 0 <= c.col < b.cols
  }

  predicate AllInGrid(b: SnakeBoard, cells: seq<Cell>)
  {
    forall i :: 0 <= i < |cells| ==> InGrid(b, cells[i])
  }

  // ---------------------------------------------------------------- invariants

  /** A buffered direction never reverses the head. */
  predicate PendingOk(s: SnakeState)
  {
    s.pending.None? || !Opposite(s.dir, s.pending.value)
  }

  /** The fruit is on no part of the snake, except perhaps the tail. */
  predicate FruitOffBody(s: SnakeState)
  {
    forall i :: 0 <= i < |s.parts| - 1 ==> s.parts[i] != s.fruit
  }

  /** What every operation keeps: a snake has a head, and the two predicates above. */
  predicate WellFormed(s: SnakeState)
  {
    |s.parts| >= 1 && PendingOk(s) && FruitOffBody(s)
  }

  // ---------------------------------------------------------------- reset, stop, start

  /** `reset`: score 0, no pending direction, one part in column 5 of the middle row
      heading right, the fruit in column 3 of that row. The interval is not touched. */
  function Reset(b: SnakeBoard, running: bool): SnakeState
  {
    var centerRow := b.rows / 2;
    SnakeState([Cell(5, centerRow)], Right, Cell(3, centerRow), 0, None, running)
  }

  /** The starting position is one part in column 5 of the middle row (rows / 2 rounded
      down) heading right, with the fruit two columns behind it and not on it. */
  lemma ResetState(b: SnakeBoard, running: bool)
    ensures var s := Reset(b, running);
      && |s.parts| == 1 && s.score == 0 && s.pending == None && s.dir == Right
      && s.parts[0].col == 5 && s.fruit.col == 3 && s.fruit.row == s.parts[0].row
      && 2 * s.parts[0].row <= b.rows < 2 * s.parts[0].row + 2
      && s.fruit !in s.parts && WellFormed(s)
      && s.running == running
  {
  }

  /** On a grid of at least one row and six columns, the starting part and the fruit are
      inside the grid. */
  lemma ResetInGrid(b: SnakeBoard, running: bool)
    requires b.rows >= 1 && b.cols >= 6
    ensures var s := Reset(b, running);
      AllInGrid(b, s.parts) && InGrid(b, s.fruit)
  {
  }

  /** `stop`: clears the interval if there is one. */
  function Stop(s: SnakeState): SnakeState
  {
    s.(running := false)
  }

  /** `start`: installs the interval. */
  function Start(s: SnakeState): SnakeState
  {
    s.(running := true)
  }

  /** `stop` is idempotent, leaves the snake stopped and changes nothing else. */
  lemma StopIdempotent(s: SnakeState)
    ensures Stop(Stop(s)) == Stop(s)
    ensures !Stop(s).running
    ensures Stop(s).(running := s.running) == s
  {
  }

  // ---------------------------------------------------------------- command

  /** `command`: ignored unless running and unless the key is an arrow key; refuses the
      reverse of the head's current direction; otherwise overwrites the pending one. */
  function Command(s: SnakeState, key: string): SnakeState
  {
    if !s.running then s
    else match ButtonToDirection(key)
      case None => s
      case Some(newDir) => if Opposite(s.dir, newDir) then s else s.(pending := Some(newDir))
  }

  /** The outcomes of `command`: only the pending direction can change; nothing happens
      while stopped or for a key that is not an arrow key; the reverse of the head's
      direction is refused; any other direction is buffered. */
  lemma CommandOutcome(s: SnakeState, key: string)
    ensures Command(s, key).(pending := s.pending) == s
    ensures !s.running || ButtonToDirection(key).None? ==> Command(s, key) == s
    ensures forall d :: s.running && ButtonToDirection(key) == Some(d) ==>
      (Command(s, key) == s <==> Opposite(s.dir, d) || s.pending == Some(d))
    ensures forall d :: s.running && ButtonToDirection(key) == Some(d) && !Opposite(s.dir, d) ==>
      Command(s, key).pending == Some(d)
  {
  }

  /** `command` never buffers a reversal, so it keeps the state well formed. */
  lemma CommandKeepsWellFormed(s: SnakeState, key: string)
    requires WellFormed(s)
    ensures PendingOk(Command(s, key)) && WellFormed(Command(s, key))
  {
  }

  // ---------------------------------------------------------------- one tick

  /** The head's direction during the tick: the buffered one if any. The buffer itself is
      never cleared. */
  function NewDir(s: SnakeState): Dir
  {
    if s.pending.Some? then s.pending.value else s.dir
  }

  function NewHead(s: SnakeState): Cell
    requires |s.parts| >= 1
  {
    Move(s.parts[0], NewDir(s))
  }

  /** The parts after the shift and the head's move: part i takes part i-1's old cell. */
  function Moved(s: SnakeState): (r: seq<Cell>)
    requires |s.parts| >= 1
    ensures |r| == |s.parts| && r[0] == NewHead(s)
    ensures forall i :: 1 <= i < |r| ==> r[i] == s.parts[i - 1]
  {
    [NewHead(s)] + s.parts[..|s.parts| - 1]
  }

  predicate Eats(s: SnakeState)
    requires |s.parts| >= 1
  {
    NewHead(s) == s.fruit
  }

  /** What the random sampling loop needs of its samples: when the fruit is eaten, every
      sample is a cell of the grid and some sample is free of the (moved) parts. */
  predicate SamplingOk(b: SnakeBoard, s: SnakeState, draws: seq<Cell>)
    requires |s.parts| >= 1
  {
    Eats(s) ==>
      && AllInGrid(b, draws)
      && exists i :: 0 <= i < |draws| && draws[i] !in Moved(s)
  }

  /** The index of the first free sample: where the do-while loop stops. */
  function FirstFree(draws: seq<Cell>, parts: seq<Cell>): (k: nat)
    requires exists i :: 0 <= i < |draws| && draws[i] !in parts
    ensures k < |draws| && draws[k] !in parts
    ensures forall j :: 0 <= j < k ==> draws[j] in parts
    decreases |draws|
  {
    if draws[0] !in parts then 0
    else
      FreeSampleLater(draws, parts);
      1 + FirstFree(draws[1..], parts)
  }

  lemma FreeSampleLater(draws: seq<Cell>, parts: seq<Cell>)
    requires exists i :: 0 <= i < |draws| && draws[i] !in parts
    requires |draws| > 0 && draws[0] in parts
    ensures exists i :: 0 <= i < |draws| - 1 && draws[1..][i] !in parts
  {
    var i :| 0 <= i < |draws| && draws[i] !in parts;
    assert draws[1..][i - 1] == draws[i];
  }

  /** The redraw: clear, the head, the fruit, then every other part. */
  function Frame(parts: seq<Cell>, dir: Dir, fruit: Cell): seq<DrawCall>
    requires |parts| >= 1
  {
    [Clear, DrawHead(parts[0], dir), DrawFruit(fruit)]
      + seq(|parts| - 1, i requires 0 <= i < |parts| - 1 => DrawBox(parts[i + 1]))
  }

  /** One run of the interval callback. The head is moved before the collision test; a
      collision fires the game-over callback and stops the interval, and the fruit test
      and the redraw still follow. On eating, the fruit is resampled against the moved
      parts and only then the old tail cell is appended. */
  function Tick(b: SnakeBoard, s: SnakeState, draws: seq<Cell>): TickResult
    requires |s.parts| >= 1 && SamplingOk(b, s, draws)
  {
    var dir := NewDir(s);
    var nextPos := s.parts[|s.parts| - 1];
    var moved := Moved(s);
    var head := moved[0];
    var over := !InGrid(b, head) || head in moved[1..];
    var eats := s.fruit == head;
    var fruit := if eats then draws[FirstFree(draws, moved)] else s.fruit;
    var parts := if eats then moved + [nextPos] else moved;
    var score := if eats then s.score + 1 else s.score;
    var st := SnakeState(parts, dir, fruit, score, s.pending, s.running && !over);
    TickResult(st, over, eats, Frame(parts, dir, fruit))
  }

  /** Movement: the buffered direction becomes the head's, the head moves one cell that
      way, every other part takes its predecessor's old cell, and the buffer stays. */
  lemma TickMoves(b: SnakeBoard, s: SnakeState, draws: seq<Cell>)
    requires |s.parts| >= 1 && SamplingOk(b, s, draws)
    ensures var r := Tick(b, s, draws).state;
      && r.dir == (if s.pending.Some? then s.pending.value else s.dir)
      && |r.parts| >= |s.parts|
      && r.parts[0] == Move(s.parts[0], r.dir)
      && (forall i :: 1 <= i < |s.parts| ==> r.parts[i] == s.parts[i - 1])
      && r.pending == s.pending
  {
  }

  /** Growth: the score callback fires exactly when the moved head is on the fruit; then
      the score goes up by one and one part is appended on the old tail cell; otherwise
      length, score and fruit stay. */
  lemma TickGrows(b: SnakeBoard, s: SnakeState, draws: seq<Cell>)
    requires |s.parts| >= 1 && SamplingOk(b, s, draws)
    ensures var t := Tick(b, s, draws); var r := t.state; var n := |s.parts|;
      && (t.scored <==> Move(s.parts[0], NewDir(s)) == s.fruit)
      && (t.scored ==> |r.parts| == n + 1 && r.parts[n] == s.parts[n - 1] && r.score == s.score + 1)
      && (!t.scored ==> |r.parts| == n && r.score == s.score && r.fruit == s.fruit)
  {
  }

  /** Game over: the callback fires exactly when the moved head is off the grid or on a
      part behind it after the shift; then the interval is stopped, otherwise the running
      flag is untouched. */
  lemma TickGameOver(b: SnakeBoard, s: SnakeState, draws: seq<Cell>)
    requires |s.parts| >= 1 && SamplingOk(b, s, draws)
    ensures var t := Tick(b, s, draws); var r := t.state; var h := r.parts[0];
      && (t.gameOver <==>
            || h.row < 0 || h.row >= b.rows || h.col < 0 || h.col >= b.cols
            || exists i :: 1 <= i < |s.parts| && r.parts[i] == h)
      && (t.gameOver ==> !r.running)
      && (!t.gameOver ==> r.running == s.running)
  {
    var t := Tick(b, s, draws);
    var moved := Moved(s);
    var h := moved[0];
    assert t.state.parts[0] == h;
    assert h in moved[1..] <==> exists i :: 1 <= i < |s.parts| && t.state.parts[i] == h by {
      if h in moved[1..] {
        var j :| 0 <= j < |moved| - 1 && moved[1..][j] == h;
        assert t.state.parts[j + 1] == h;
      }
      if i :| 1 <= i < |s.parts| && t.state.parts[i] == h {
        assert moved[1..][i - 1] == h;
      }
    }
  }

  /** A tick without game over leaves a snake that was inside the grid inside it. */
  lemma TickStaysInGrid(b: SnakeBoard, s: SnakeState, draws: seq<Cell>)
    requires |s.parts| >= 1 && SamplingOk(b, s, draws)
    requires AllInGrid(b, s.parts)
    ensures var t := Tick(b, s, draws);
      !t.gameOver ==> AllInGrid(b, t.state.parts)
  {
  }

  /** Fruit placement: a resampled fruit is on the grid and on none of the parts that
      exist while it is sampled (all but the appended tail). A fruit that was on the grid
      stays on it. */
  lemma TickPlacesFruit(b: SnakeBoard, s: SnakeState, draws: seq<Cell>)
    requires |s.parts| >= 1 && SamplingOk(b, s, draws)
    ensures var t := Tick(b, s, draws); var r := t.state;
      && (t.scored ==> r.fruit in draws && forall i :: 0 <= i < |s.parts| ==> r.parts[i] != r.fruit)
      && (t.scored ==> InGrid(b, r.fruit))
      && (InGrid(b, s.fruit) ==> InGrid(b, r.fruit))
  {
  }

  /** Because the tail is appended after sampling, the new fruit can lie under the new
      tail: one part at (5, 10) heading left eats the fruit at (4, 10), and the first
      sample (5, 10) is the cell the head just left. */
  lemma FruitMayLandOnNewTail()
    ensures var b := SnakeBoard(20, 30, 1, 600, 400, 18);
      var s := SnakeState([Cell(5, 10)], Left, Cell(4, 10), 0, None, true);
      var t := Tick(b, s, [Cell(5, 10)]);
      t.scored && t.state.parts == [Cell(4, 10), Cell(5, 10)] && t.state.fruit == Cell(5, 10)
  {
  }

  /** The fruit never comes to lie under a part other than the tail, and after a tick
      that does not eat it lies under no part at all. */
  lemma TickKeepsFruitOffBody(b: SnakeBoard, s: SnakeState, draws: seq<Cell>)
    requires |s.parts| >= 1 && SamplingOk(b, s, draws)
    requires FruitOffBody(s)
    ensures var t := Tick(b, s, draws);
      && FruitOffBody(t.state)
      && (!t.scored ==> t.state.fruit !in t.state.parts)
  {
  }

  /** With the fruit on the grid and off the body, a fatal tick never also eats. */
  lemma GameOverNeverScores(b: SnakeBoard, s: SnakeState, draws: seq<Cell>)
    requires |s.parts| >= 1 && SamplingOk(b, s, draws)
    requires FruitOffBody(s) && InGrid(b, s.fruit)
    ensures var t := Tick(b, s, draws); t.gameOver ==> !t.scored
  {
  }

  /** The head never reverses within one tick, and the tick keeps the state well formed. */
  lemma TickNeverReverses(b: SnakeBoard, s: SnakeState, draws: seq<Cell>)
    requires WellFormed(s) && SamplingOk(b, s, draws)
    ensures var r := Tick(b, s, draws).state;
      !Opposite(s.dir, r.dir) && WellFormed(r)
  {
  }

  /** Doubling back: a snake of three or more parts whose head turned to the reverse of
      the way it came runs into its second part. */
  lemma ReversalIsFatal(b: SnakeBoard, s: SnakeState, draws: seq<Cell>, came: Dir)
    requires |s.parts| >= 3 && SamplingOk(b, s, draws)
    requires s.parts[0] == Move(s.parts[1], came) && Opposite(came, NewDir(s))
    ensures Tick(b, s, draws).gameOver
  {
  }

  /** If the moved snake covers every cell of the grid, no samples can satisfy the sampling
      loop: when such a tick eats, the do-while loop never ends. */
  lemma FullGridNoSampling(b: SnakeBoard, s: SnakeState, draws: seq<Cell>)
    requires |s.parts| >= 1 && Eats(s)
    requires forall c :: InGrid(b, c) ==> c in Moved(s)
    ensures !SamplingOk(b, s, draws)
  {
    if AllInGrid(b, draws) {
      forall i | 0 <= i < |draws|
        ensures draws[i] in Moved(s)
      {
        assert InGrid(b, draws[i]);
      }
    }
  }

  /** After a tick that leaves two or more parts, including a one-part snake that has just
      grown, the head is one step from part 1 in the head's direction: a snake the game
      produces always has its head where its direction led it. */
  lemma TickHeadFollowsNeck(b: SnakeBoard, s: SnakeState, draws: seq<Cell>)
    requires |s.parts| >= 1 && SamplingOk(b, s, draws)
    ensures var r := Tick(b, s, draws).state;
      |r.parts| >= 2 ==> r.parts[0] == Move(r.parts[1], r.dir)
  {
  }

  /** A grid of two rows and two columns, and a snake filling it in a cycle: its head where
      its direction (up) led it, with a turn to the right pending and the fruit under the
      tail. */
  const WonBoard := SnakeBoard(2, 2, 1, 8, 8, 2)
  const WonSnake := SnakeState([Cell(0, 0), Cell(0, 1), Cell(1, 1), Cell(1, 0)], Up, Cell(1, 0), 3,
                               Some(Right), true)

  /** The parts of WonSnake after the shift and the turn. */
  lemma WonSnakeMoves()
    ensures Moved(WonSnake) == [Cell(1, 0), Cell(0, 0), Cell(0, 1), Cell(1, 1)]
  {
    assert NewHead(WonSnake) == Cell(1, 0);
  }

  /** The four cells of WonBoard are all covered by the moved snake. */
  lemma WonSnakeCoversGrid(c: Cell)
    requires InGrid(WonBoard, c)
    ensures c in Moved(WonSnake)
  {
    WonSnakeMoves();
    if c.row == 0 {
      if c.col == 0 { assert Moved(WonSnake)[1] == c; } else { assert Moved(WonSnake)[0] == c; }
    } else {
      if c.col == 0 { assert Moved(WonSnake)[2] == c; } else { assert Moved(WonSnake)[3] == c; }
    }
  }

  /** WonSnake is well formed, inside the grid, and shaped as a tick leaves a snake. */
  lemma WonSnakeShape()
    ensures WellFormed(WonSnake) && AllInGrid(WonBoard, WonSnake.parts)
    ensures InGrid(WonBoard, WonSnake.fruit)
    ensures WonSnake.parts[0] == Move(WonSnake.parts[1], WonSnake.dir)
  {
  }

  /** WonSnake's turn takes the head onto the fruit, inside the grid, with no collision. */
  lemma WonSnakeEats()
    ensures Eats(WonSnake) && InGrid(WonBoard, NewHead(WonSnake))
    ensures NewHead(WonSnake) !in Moved(WonSnake)[1..]
  {
    WonSnakeMoves();
  }

  /** No samples let WonSnake's sampling loop end. */
  lemma WonSnakeNoSampling()
    ensures forall draws :: !SamplingOk(WonBoard, WonSnake, draws)
  {
    forall c | InGrid(WonBoard, c)
      ensures c in Moved(WonSnake)
    {
      WonSnakeCoversGrid(c);
    }
    forall draws: seq<Cell>
      ensures !SamplingOk(WonBoard, WonSnake, draws)
    {
      FullGridNoSampling(WonBoard, WonSnake, draws);
    }
  }

  /** The last fruit of a won game hangs the loop: WonSnake is well formed, inside the grid
      and shaped as a tick leaves a snake; its turn takes the head into the cell its tail
      leaves, where the fruit lies, so it eats without colliding, and no samples let the
      sampling loop end. */
  lemma FullGridHangs()
    ensures && WellFormed(WonSnake) && AllInGrid(WonBoard, WonSnake.parts)
            && InGrid(WonBoard, WonSnake.fruit)
            && WonSnake.parts[0] == Move(WonSnake.parts[1], WonSnake.dir)
            && Eats(WonSnake) && InGrid(WonBoard, NewHead(WonSnake))
            && NewHead(WonSnake) !in Moved(WonSnake)[1..]
            && forall draws :: !SamplingOk(WonBoard, WonSnake, draws)
  {
    WonSnakeShape();
    WonSnakeEats();
    WonSnakeNoSampling();
  }

  /** The redraw is made on every tick, game over or not: clear, the head with its
      direction, the fruit, then parts 1 to n-1. */
  lemma TickDraws(b: SnakeBoard, s: SnakeState, draws: seq<Cell>)
    requires |s.parts| >= 1 && SamplingOk(b, s, draws)
    ensures var t := Tick(b, s, draws); var r := t.state;
      && |t.frame| == |r.parts| + 2
      && t.frame[0] == Clear && t.frame[1] == DrawHead(r.parts[0], r.dir)
      && t.frame[2] == DrawFruit(r.fruit)
      && forall i :: 1 <= i < |r.parts| ==> t.frame[i + 2] == DrawBox(r.parts[i])
  {
  }
}
