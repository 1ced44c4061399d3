/** The objects of index.js that change in place: a Snake, whose methods update its fields
    and whose tick shifts its parts one by one, and the page that owns it, with its `dead`
    flag and score display. Each method is proved to compute the function of the same
    name in module Rules or Lifecycle. */
module Engine {
  import opened Geometry
  import opened Rules
  import opened Lifecycle

  class Snake {
    const board: SnakeBoard
    var parts: seq<Cell>
    /** The direction carried by the head part, `parts[0].dir`. */
    var dir: Dir
    var fruit: Cell
    var score: int
    var commandToExecute: Option<Dir>
    /** True while an interval is installed. */
    var running: bool

    function State(): SnakeState
      reads this
    {
      SnakeState(parts, dir, fruit, score, commandToExecute, running)
    }

    ghost predicate Valid()
      reads this
    {
      WellFormed(State())
    }

    /** The constructor resets the snake; no interval is installed yet. */
    constructor (board: SnakeBoard)
      ensures this.board == board && Valid()
      ensures State() == Rules.Reset(board, false)
    {
      this.board := board;
      running := false;
      new;
      Reset();
    }

    method Reset()
      modifies this
      ensures Valid() && State() == Rules.Reset(board, old(running))
    {
      var centerRow := board.rows / 2;
      score := 0;
      parts := [];
      commandToExecute := None;
      parts := parts + [Cell(5, centerRow)];
      dir := Right;
      fruit := Cell(3, centerRow);
    }

    method Start()
      modifies this
      ensures IsRunning() && (Valid() <==> old(Valid()))
      ensures State() == Rules.Start(old(State()))
    {
      running := true;
    }

    method Stop()
      modifies this
      ensures !IsRunning() && (Valid() <==> old(Valid()))
      ensures State() == Rules.Stop(old(State()))
    {
      if running {
        running := false;
      }
    }

    /** Whether an interval is installed. */
    function IsRunning(): bool
      reads this
    {
      running
    }

    method Command(key: string)
      requires Valid()
      modifies this
      ensures Valid() && State() == Rules.Command(old(State()), key)
    {
      CommandKeepsWellFormed(State(), key);
      if !IsRunning() {
        return;
      }
      var wanted := ButtonToDirection(key);
      if wanted.Some? {
        var newDir := wanted.value;
        if Opposite(dir, newDir) {
          return;
        }
        commandToExecute := Some(newDir);
      }
    }

    /** One run of the interval callback. `draws` are the cells the random sampling
        produces, in order. */
    method Tick(draws: seq<Cell>) returns (gameOver: bool, scored: bool, frame: seq<DrawCall>)
      requires Valid() && SamplingOk(board, State(), draws)
      modifies this
      ensures Valid()
      ensures TickResult(State(), gameOver, scored, frame) == Rules.Tick(board, old(State()), draws)
    {
      ghost var s := State();
      ghost var t := Rules.Tick(board, s, draws);
      TickNeverReverses(board, s, draws);
      var nextPos, head := TurnAndMove();
      gameOver := false;
      if head.row < 0 || head.row >= board.rows || head.col < 0 || head.col >= board.cols
        || head in parts[1..]
      {
        gameOver := true;
        Stop();
      }
      assert gameOver == t.gameOver && running == t.state.running;
      scored := false;
      if fruit == head {
        score := score + 1;
        ResampleFruit(draws);
        parts := parts + [nextPos];
        scored := true;
      }
      assert State() == t.state;
      frame := Redraw();
    }

    /** The first part of the tick: a pending direction becomes the head's, the tail's
        cell is remembered, the body is shifted and the head moved in place. */
    method TurnAndMove() returns (nextPos: Cell, head: Cell)
      requires |parts| >= 1
      modifies this
      ensures nextPos == old(parts)[|old(parts)| - 1] && head == NewHead(old(State()))
      ensures State() == old(State()).(parts := Moved(old(State())), dir := NewDir(old(State())))
    {
      ghost var s := State();
      if commandToExecute.Some? {
        dir := commandToExecute.value;
      }
      nextPos := parts[|parts| - 1];
      ShiftBody();
      head := Move(parts[0], dir);
      parts := parts[0 := head];
      assert parts == Moved(s);
    }

    /** The loop that walks from the tail to the head, giving each part the cell of the
        part in front of it. The head keeps its cell. */
    method ShiftBody()
      requires |parts| >= 1
      modifies this
      ensures |parts| == |old(parts)| && parts[0] == old(parts)[0]
      ensures forall j :: 1 <= j < |parts| ==> parts[j] == old(parts)[j - 1]
      ensures State() == old(State()).(parts := parts)
    {
      var i := |parts| - 1;
      while i > 0
        invariant 0 <= i < |parts| == |old(parts)|
        invariant forall j :: 0 <= j <= i ==> parts[j] == old(parts)[j]
        invariant forall j :: i < j < |parts| ==> parts[j] == old(parts)[j - 1]
        invariant State() == old(State()).(parts := parts)
      {
        parts := parts[i := parts[i - 1]];
        i := i - 1;
      }
    }

    /** The do-while loop that draws cells until one is on no part. */
    method ResampleFruit(draws: seq<Cell>)
      requires exists i :: 0 <= i < |draws| && draws[i] !in parts
      modifies this
      ensures State() == old(State()).(fruit := draws[FirstFree(draws, old(parts))])
    {
      var k := 0;
      fruit := draws[k];
      while fruit in parts
        invariant State() == old(State()).(fruit := fruit)
        invariant 0 <= k <= FirstFree(draws, parts) && fruit == draws[k]
        decreases FirstFree(draws, parts) - k
      {
        k := k + 1;
        fruit := draws[k];
      }
    }

    /** The drawing calls at the end of the tick: clear, the head, the fruit, then the
        loop over parts 1 to n-1. */
    method Redraw() returns (frame: seq<DrawCall>)
      requires |parts| >= 1
      ensures |frame| == |parts| + 2
      ensures frame[..3] == [Clear, DrawHead(parts[0], dir), DrawFruit(fruit)]
      ensures forall j :: 3 <= j < |frame| ==> frame[j] == DrawBox(parts[j - 2])
      ensures frame == Frame(parts, dir, fruit)
    {
      frame := [Clear, DrawHead(parts[0], dir), DrawFruit(fruit)];
      var i := 1;
      while i < |parts|
        invariant 1 <= i <= |parts|
        invariant |frame| == i + 2
        invariant frame[..3] == [Clear, DrawHead(parts[0], dir), DrawFruit(fruit)]
        invariant forall j :: 3 <= j < |frame| ==> frame[j] == DrawBox(parts[j - 2])
      {
        frame := frame + [DrawBox(parts[i])];
        i := i + 1;
      }
    }
  }

  /** The page script: the snake it drives, the `dead` flag and the score display. */
  class Page {
    const board: SnakeBoard
    const snake: Snake
    var dead: bool
    var scoreText: int

    function State(): PageState
      reads this, snake
    {
      PageState(snake.State(), dead, scoreText)
    }

    ghost predicate Valid()
      reads this, snake
    {
      snake.board == board && Inv(board, State())
    }

    /** window.onload on a canvas of the given size: build the board and the snake
        (whose reset calls the score callback), then start it. */
    constructor (width: int, height: int)
      ensures Valid() && fresh(snake)
      ensures board == PageBoard(width, height) && State() == Loaded(board)
    {
      var b := PageBoard(width, height);
      var sn := new Snake(b);
      scoreText := sn.score * PointsPerFruit;
      sn.Start();
      board := b;
      snake := sn;
      dead := false;
      new;
      LoadedInv(width, height);
    }

    /** The keydown handler. */
    method OnKey(key: string)
      requires Valid()
      modifies this, snake
      ensures Valid() && State() == Lifecycle.OnKey(board, old(State()), key)
    {
      ghost var p := State();
      OnKeyKeepsInv(board, p, key);
      if key == "r" {
        dead := false;
        snake.Stop();
        snake.Reset();
        scoreText := snake.score * PointsPerFruit;
        snake.Start();
      }
      if !dead {
        if key == "p" {
          if snake.IsRunning() {
            snake.Stop();
          } else {
            snake.Start();
          }
        }
        snake.Command(key);
      }
    }

    /** One firing of the interval; returns the redraw it makes. */
    method OnTimer(draws: seq<Cell>) returns (frame: seq<DrawCall>)
      requires Valid() && snake.running && SamplingOk(board, snake.State(), draws)
      modifies this, snake
      ensures Valid() && State() == Lifecycle.OnTimer(board, old(State()), draws)
      ensures frame == Rules.Tick(board, old(snake.State()), draws).frame
    {
      OnTimerKeepsInv(board, State(), draws);
      var gameOver, scored;
      gameOver, scored, frame := snake.Tick(draws);
      if gameOver {
        dead := true;
      }
      if scored {
        scoreText := snake.score * PointsPerFruit;
      }
    }
  }
}
