/** The page script of index.js (window.onload) without the DOM: the `dead` flag, the
    score display, the keydown handler and the interval callback, as functions on a
    value of the page state. The class Page in engine.dfy performs them in place. */
module Lifecycle {
  import opened Geometry
  import opened Rules

  /** The snake, the `dead` flag of the page script, and the number the score element
      shows. */
  datatype PageState = PageState(snake: SnakeState, dead: bool, scoreText: int)

  /** The board the page builds: 20 rows, 30 columns, a gap of 1. */
  const Rows := 20
  const Cols := 30
  const Gap := 1

  /** The score callback shows 50 points per fruit. */
  const PointsPerFruit := 50

  function PageBoard(width: int, height: int): SnakeBoard
  {
    NewBoard(width, height, Rows, Cols, Gap)
  }

  /** The page after loading: the Snake constructor resets (which calls the score
      callback) and the snake is started. */
  function Loaded(b: SnakeBoard): PageState
  {
    var s := Reset(b, false);
    PageState(Start(s), false, s.score * PointsPerFruit)
  }

  /** The keydown handler: 'r' clears `dead`, stops, resets and starts the snake; then a
      dead page ignores the key; otherwise 'p' toggles the interval; finally the key is
      passed to `command`. */
  function OnKey(b: SnakeBoard, p: PageState, key: string): PageState
  {
    var p1 :=
      if key == "r" then
        var s := Reset(b, Stop(p.snake).running);
        PageState(Start(s), false, s.score * PointsPerFruit)
      else p;
    if p1.dead then p1
    else
      var s2 :=
        if key == "p" then (if p1.snake.running then Stop(p1.snake) else Start(p1.snake))
        else p1.snake;
      p1.(snake := Command(s2, key))
  }

  /** The interval callback as the page sees it: one tick, whose game-over callback sets
      `dead` and whose score callback refreshes the display. The interval fires only
      while it is installed. */
  function OnTimer(b: SnakeBoard, p: PageState, draws: seq<Cell>): PageState
    requires p.snake.running
    requires |p.snake.parts| >= 1 && SamplingOk(b, p.snake, draws)
  {
    var t := Tick(b, p.snake, draws);
    PageState(t.state, p.dead || t.gameOver,
              if t.scored then t.state.score * PointsPerFruit else p.scoreText)
  }

  /** What holds between events: the board is large enough for the starting position,
      the snake is well formed and one part longer than its score, the fruit is on the
      grid, the display shows 50 points per fruit, a dead page has no interval running,
      and a live snake is inside the grid. */
  predicate Inv(b: SnakeBoard, p: PageState)
  {
    && b.rows >= 1 && b.cols >= 6
    && WellFormed(p.snake)
    && p.snake.score >= 0
    && |p.snake.parts| == p.snake.score + 1
    && InGrid(b, p.snake.fruit)
    && p.scoreText == p.snake.score * PointsPerFruit
    && (p.dead ==> !p.snake.running)
    && (!p.dead ==> AllInGrid(b, p.snake.parts))
  }

  /** The loaded page is alive, running, shows 0, and satisfies the invariant. */
  lemma LoadedInv(width: int, height: int)
    ensures var b := PageBoard(width, height); var p := Loaded(b);
      Inv(b, p) && !p.dead && p.snake.running && p.scoreText == 0
  {
  }

  /** Every key keeps the invariant. */
  lemma OnKeyKeepsInv(b: SnakeBoard, p: PageState, key: string)
    requires Inv(b, p)
    ensures Inv(b, OnKey(b, p, key))
  {
  }

  /** Every tick keeps the invariant. A tick comes only to a live page; it makes the page
      dead exactly when the game-over callback fires, and then the interval is gone, so
      the callback fires once and no later tick moves the snake until 'r'. */
  lemma OnTimerKeepsInv(b: SnakeBoard, p: PageState, draws: seq<Cell>)
    requires Inv(b, p) && p.snake.running && SamplingOk(b, p.snake, draws)
    ensures var r := OnTimer(b, p, draws); var t := Tick(b, p.snake, draws);
      && Inv(b, r)
      && !p.dead
      && (r.dead <==> t.gameOver)
      && (r.dead ==> !r.snake.running)
  {
  }

  /** 'r' always ends alive, running, at the reset position, showing 0, whatever came
      before. */
  lemma KeyRRestarts(b: SnakeBoard, p: PageState)
    ensures OnKey(b, p, "r") == PageState(Reset(b, true), false, 0)
  {
  }

  /** On the loaded page the snake heads right with the fruit behind it, so ArrowLeft is
      refused: the fruit can only be reached after turning. */
  lemma ArrowLeftRefusedAtStart(width: int, height: int)
    ensures var b := PageBoard(width, height);
      OnKey(b, Loaded(b), "ArrowLeft") == Loaded(b)
  {
  }

  /** While dead, every key but 'r' changes nothing. */
  lemma DeadIgnoresKeys(b: SnakeBoard, p: PageState, key: string)
    requires p.dead && key != "r"
    ensures OnKey(b, p, key) == p
  {
  }

  /** While alive, 'p' flips the interval and changes nothing else. */
  lemma PauseToggles(b: SnakeBoard, p: PageState)
    requires !p.dead
    ensures OnKey(b, p, "p") == p.(snake := p.snake.(running := !p.snake.running))
  {
  }

  /** While alive, any other key goes to `command` and nothing else happens. */
  lemma OtherKeysCommand(b: SnakeBoard, p: PageState, key: string)
    requires !p.dead && key != "r" && key != "p"
    ensures OnKey(b, p, key) == p.(snake := Command(p.snake, key))
  {
  }

  /** An event the page reacts to: a keydown, or one firing of the interval together with
      the cells its random sampling would draw. */
  datatype Event = Key(key: string) | Timer(draws: seq<Cell>)

  /** Whether an interval firing can happen: an interval is installed, and if the tick
      eats, its sampling loop ends. */
  predicate CanFire(b: SnakeBoard, p: PageState, draws: seq<Cell>)
  {
    p.snake.running && |p.snake.parts| >= 1 && SamplingOk(b, p.snake, draws)
  }

  /** The page after a sequence of events. A firing that cannot happen is skipped: no
      interval is installed, or its sampling would never stop. */
  function Run(b: SnakeBoard, p: PageState, events: seq<Event>): PageState
    decreases |events|
  {
    if events == [] then p
    else
      var next := match events[0]
        case Key(key) => OnKey(b, p, key)
        case Timer(draws) => if CanFire(b, p, draws) then OnTimer(b, p, draws) else p;
      Run(b, next, events[1..])
  }

  /** Any sequence of events keeps the invariant. */
  lemma {:induction false} RunKeepsInv(b: SnakeBoard, p: PageState, events: seq<Event>)
    requires Inv(b, p)
    ensures Inv(b, Run(b, p, events))
    decreases |events|
  {
    if events != [] {
      match events[0]
      case Key(key) =>
        OnKeyKeepsInv(b, p, key);
        RunKeepsInv(b, OnKey(b, p, key), events[1..]);
      case Timer(draws) =>
        if CanFire(b, p, draws) {
          OnTimerKeepsInv(b, p, draws);
          RunKeepsInv(b, OnTimer(b, p, draws), events[1..]);
        } else {
          RunKeepsInv(b, p, events[1..]);
        }
    }
  }

  /** Whatever happens after loading: the snake has one part per fruit eaten plus the
      head, the fruit is on the grid, the display shows 50 points per fruit, a live
      snake is inside the grid, and a dead page has no interval, so no tick moves the
      snake again until 'r'. */
  lemma ReachableFromLoad(width: int, height: int, events: seq<Event>)
    ensures var b := PageBoard(width, height); var p := Run(b, Loaded(b), events);
      && |p.snake.parts| == p.snake.score + 1 && InGrid(b, p.snake.fruit)
      && p.scoreText == p.snake.score * PointsPerFruit
      && (p.dead ==> !p.snake.running)
      && (!p.dead ==> AllInGrid(b, p.snake.parts))
  {
    LoadedInv(width, height);
    RunKeepsInv(PageBoard(width, height), Loaded(PageBoard(width, height)), events);
  }
}
