# Snake game engine (jssnake index.js) in Dafny

This project models the game engine of a browser snake game, and proves properties of the model. The engine is the `Snake` class of `index.js`. The model covers:

- what `Snake` does on `reset`, on each run of its interval callback (one *tick*), and on `stop`, `start`, `isRunning` and `command`;
- the decisions of the page's keydown handler (`'r'` restarts, a `dead` page ignores other keys, `'p'` pauses or resumes, anything else goes to `command`), the `dead` flag, and the score display (50 points per fruit);
- the grid geometry of `SnakeBoard`: the box size computed once in the constructor, and `posToCor`.

Files:

- `geometry.dfy`, module `Geometry`: the `SnakeBoard` configuration, `BoxSize`, `NewBoard`, `PosToCor`, and lemmas on box layout.
- `rules.dfy`, module `Rules`: each Snake operation written as a function on a value of the snake's state (`Reset`, `Tick`, `Stop`, `Start`, `Command`), together with the lemmas that state the game's rules.
- `lifecycle.dfy`, module `Lifecycle`: the page script as functions: `Loaded`, `OnKey` and `OnTimer`. It also holds the page invariant `Inv`, the lemmas that say each event keeps it, and `Run`, which applies any sequence of events, with the lemma that the invariant holds after any run from loading.
- `engine.dfy`, module `Engine`: the classes `Snake` and `Page`, whose methods update fields in place, as the source does. The tick shifts the parts with a tail-to-head loop, moves the head in place, runs the do-while resampling loop and builds the redraw in a loop. The `ensures` of `Reset`, `Start`, `Stop`, `Command`, `Tick` and the `Page` methods equate the new state with the function of the same name in `Rules` or `Lifecycle`, and say that `Valid()` is kept. The tick's helpers `TurnAndMove`, `ShiftBody`, `ResampleFruit` and `Redraw` state their effect on the fields directly.

Modelling choices:

- A part is a `Cell(col, row)`. The direction that the JavaScript head object carries (`parts[0].dir`) is the separate field `dir`.
- The installed interval is the boolean `running`. The timer firing becomes an explicit call to `Tick`, or to `Page.OnTimer`, which requires `running`.
- `Math.random` becomes the parameter `draws`: the cells the sampling loop would draw, in order. When the fruit is eaten, every draw must lie on the grid (which `Math.floor(Math.random() * n)` guarantees), and some draw must be free of the snake. That second condition is the do-while loop's exit condition. `FirstFree` gives the index where the loop stops.
- The callbacks become results. `Tick` returns whether the game-over callback fired, whether the score callback fired, and the redraw as a list of drawing calls: clear, the head, the fruit, then parts 1 to n-1.

In these places the code does something easy to misread; the model follows the code:

- The pending direction (`commandToExecute`) is never cleared once it is applied (index.js:129-131).
- On a collision, the moved head stays where it moved, even off the grid. After the game-over callback and `stop`, the rest of the tick still runs: the fruit test and the redraw.
- The new fruit is sampled against the parts *before* the grown tail is appended (index.js:171-180). So the fruit can lie under the new tail, and it is not true that the fruit never lies on the snake. `FruitMayLandOnNewTail` exhibits such an input. What does hold is `FruitOffBody`: the fruit is on no part except perhaps the tail (`TickKeepsFruitOffBody`).
- The direction keys are `ArrowUp`, `ArrowDown`, `ArrowLeft` and `ArrowRight`. `command` compares a request with the head's current direction, not with the pending one.
- From the reset position (heading right, with the fruit two columns behind), `ArrowLeft` is refused. So the fruit can only be reached by turning first.
- When the snake fills the whole grid, its head can move into the cell its tail just left, where the last fruit lies. That move does not collide (index.js:160-164), so the snake eats, and the do-while loop at index.js:171-175 then finds no free cell and never ends: the page hangs on a won game. `FullGridHangs` exhibits such a state on a grid of two rows and two columns: a snake of four parts in a cycle, heading up with a turn to the right pending, whose head lies where its direction led it, as after every tick (`TickHeadFollowsNeck`), and `FullGridNoSampling` shows that no samples can end the loop whenever the moved snake covers the grid. In the model such a firing has no result: `Tick` requires `SamplingOk`, and `Run` skips the firing. That a full grid is reached from the loaded page is not proved.
- There is no configuration-error path. For a grid narrower than six columns, the starting cell (column 5) is simply off the grid. `Inv` assumes at least 1 row and 6 columns; the page uses 20 rows and 30 columns.

## Model

| member | source | states |
|---|---|---|
| Geometry.BoxSize | index.js:13 | the box size plus two gaps is the largest k with `cols * k <= width`, i.e. `floor(width / cols - 2 * gap)` |
| Geometry.NewBoard | index.js:4-14 | the board records rows, cols, gap and canvas size, and its box size is the largest at which `cols` boxes with their gaps fit in the canvas width |
| Geometry.PosToCor | index.js:17-19 | no contract of its own; its properties are stated by `CellStride`, `BoxesDisjoint` and `BoxInsideClearedArea` |
| Geometry.CellStride | index.js:17-19 | neighbouring cells' origins differ by exactly `boxSize + 2 * gap` |
| Geometry.BoxesDisjoint | index.js:17-19 | for `gap >= 0` and `boxSize >= 1`, the box of an earlier cell ends, with its gaps, before the box of any later cell starts |
| Geometry.BoxInsideClearedArea | index.js:75-80 | each column's box lies within the `cols * (boxSize + 2 * gap)` wide rectangle that `clear` wipes |
| Rules.Opposite | index.js:215-220 | no contract of its own; its properties are stated by `MoveBack` and `CommandOutcome` |
| Rules.Move | index.js:145-158 | the head moves to a cell that shares a side with its old one; up and down keep the column, left and right keep the row |
| Rules.MoveBack | index.js:215-220 | a second step returns to the starting cell exactly when it is the opposite direction, which is the move `command` refuses |
| Rules.ButtonToDirection | index.js:85-90 | no contract of its own; its properties are stated by `ButtonToDirectionInjective` and `ButtonToDirectionCovers` |
| Rules.ButtonToDirectionInjective | index.js:85-90 | a direction has at most one key, and 'r' and 'p' are not direction keys |
| Rules.ButtonToDirectionCovers | index.js:85-90 | every direction has a key |
| Rules.Reset | index.js:104-123 | no contract of its own; its properties are stated by `ResetState` and `ResetInGrid` |
| Rules.ResetState | index.js:104-123 | reset gives score 0, no pending direction, one part at column 5 of row `floor(rows / 2)` heading right, and the fruit at column 3 of that row, off the snake, so the state is well formed; the interval is untouched |
| Rules.ResetInGrid | index.js:104-123 | on a grid of at least 1 row and 6 columns, the starting part and the fruit are on the grid |
| Rules.StopIdempotent | index.js:196-201 | stop is idempotent, leaves the snake not running and changes nothing else |
| Rules.Stop | index.js:196-201 | no contract of its own; its properties are stated by `StopIdempotent` |
| Rules.Start | index.js:125-126 | no contract of its own; its properties are stated by `Engine.Snake.Start` |
| Rules.Command | index.js:207-225 | no contract of its own; its properties are stated by `CommandOutcome` and `CommandKeepsWellFormed` |
| Rules.CommandOutcome | index.js:207-225 | command only touches the pending direction; it is a no-op when stopped or for a non-arrow key; the state stays the same exactly when the request is the reverse of the head's direction or is already pending; other requests become pending |
| Rules.CommandKeepsWellFormed | index.js:207-225 | a pending direction is never the reverse of the head's direction after command |
| Rules.Moved | index.js:138-158 | after the shift and the head's move, the head is one step from its old cell and every other part holds its predecessor's old cell |
| Rules.FirstFree | index.js:171-175 | the sampling loop stops at the first draw that is on no part; every earlier draw is on a part |
| Rules.NewDir | index.js:129-131 | no contract of its own; its properties are stated by `TickMoves` and `TickNeverReverses` |
| Rules.Frame | index.js:185-192 | no contract of its own; its properties are stated by `TickDraws` and `Engine.Snake.Redraw` |
| Rules.Tick | index.js:126-192 | no contract of its own; its properties are stated by `TickMoves`, `TickGrows`, `TickGameOver`, `TickStaysInGrid`, `TickPlacesFruit`, `TickKeepsFruitOffBody`, `GameOverNeverScores`, `TickNeverReverses`, `ReversalIsFatal`, `TickHeadFollowsNeck` and `TickDraws` |
| Rules.TickMoves | index.js:129-158 | a pending direction becomes the head's direction first and stays pending; the head moves one cell that way; part i takes part i-1's old cell |
| Rules.TickGrows | index.js:133-183 | the score callback fires exactly when the moved head is on the fruit; then the score rises by 1 and one part is appended on the old tail cell; otherwise length, score and fruit are unchanged |
| Rules.TickGameOver | index.js:160-167 | game over fires exactly when the moved head is outside `[0, cols) x [0, rows)` or equals a part at index 1 or more after the shift; then the snake is stopped, and otherwise running is unchanged |
| Rules.TickStaysInGrid | index.js:160-167 | without game over, a snake that was on the grid is still on the grid after the tick |
| Rules.TickPlacesFruit | index.js:171-180 | a resampled fruit is one of the draws, lies on the grid, and lies on none of the parts that exist while it is sampled; a fruit on the grid stays on the grid |
| Rules.FruitMayLandOnNewTail | index.js:171-180 | a concrete tick where the new fruit lies under the appended tail |
| Rules.TickKeepsFruitOffBody | index.js:138-180 | the fruit never lies under a part other than the tail, and after a tick without eating it lies under no part |
| Rules.GameOverNeverScores | index.js:160-170 | with the fruit on the grid and off the body, a tick that ends the game never also eats |
| Rules.TickNeverReverses | index.js:129-131 | the head's new direction is never the reverse of its old one, and the tick keeps the state well formed |
| Rules.ReversalIsFatal | index.js:138-167 | a snake of three or more parts whose head turns back the way it came runs into its second part |
| Rules.TickHeadFollowsNeck | index.js:138-180 | after any tick that leaves two or more parts, including a one-part snake that has just grown, the head is one step from part 1 in the head's direction |
| Rules.FullGridNoSampling | index.js:171-175 | when an eating tick's moved snake covers every grid cell, no samples let the sampling loop end |
| Rules.FullGridHangs | index.js:160-175 | a concrete well-formed snake filling a 2 x 2 grid, its head one step from part 1 in its direction, turns into its old tail cell without collision, eats the fruit there, and no samples let the sampling loop end |
| Rules.TickDraws | index.js:185-192 | every tick redraws, game over or not: clear, the head with its direction, the fruit, then parts 1 to n-1 in order |
| Lifecycle.LoadedInv | index.js:238-276 | after loading, on the 20 x 30 board with gap 1 built at index.js:249, the page is alive, running, shows 0 and satisfies the invariant |
| Lifecycle.PageBoard | index.js:249 | no contract of its own; its properties are stated by `LoadedInv` |
| Lifecycle.Loaded | index.js:238-276 | no contract of its own; its properties are stated by `LoadedInv` and `ArrowLeftRefusedAtStart` |
| Lifecycle.OnKey | index.js:252-274 | no contract of its own; its properties are stated by `OnKeyKeepsInv`, `KeyRRestarts`, `DeadIgnoresKeys`, `PauseToggles`, `OtherKeysCommand` and `ArrowLeftRefusedAtStart` |
| Lifecycle.OnKeyKeepsInv | index.js:252-274 | every key keeps the page invariant |
| Lifecycle.OnTimerKeepsInv | index.js:240-247 | a tick comes only to a live page; it makes the page dead exactly when game over fires, and then the interval is stopped; the display stays at 50 points per fruit and the length at score plus one; the invariant is kept |
| Lifecycle.OnTimer | index.js:240-247 | no contract of its own; its properties are stated by `OnTimerKeepsInv` |
| Lifecycle.RunKeepsInv | index.js:252-274 | any sequence of keys and interval firings keeps the page invariant |
| Lifecycle.ReachableFromLoad | index.js:238-283 | after loading and any events: the snake has one part per fruit plus the head, the fruit is on the grid, the display is 50 points per fruit, a live snake is on the grid, and a dead page has no interval running |
| Lifecycle.ArrowLeftRefusedAtStart | index.js:207-225 | on the freshly loaded page, ArrowLeft is refused, because the snake heads right |
| Lifecycle.KeyRRestarts | index.js:253-259 | 'r' always ends alive, running, in the reset state, showing 0 |
| Lifecycle.DeadIgnoresKeys | index.js:261 | while dead, every key but 'r' changes nothing |
| Lifecycle.PauseToggles | index.js:263-271 | while alive, 'p' flips whether the snake runs and changes nothing else |
| Lifecycle.OtherKeysCommand | index.js:273 | while alive, any other key goes to `command` only |
| Engine.Snake.constructor | index.js:95-102 | a new snake is in the reset state, not running, and well formed |
| Engine.Snake.Reset | index.js:104-123 | the fields become the reset state; the running flag is kept |
| Engine.Snake.Start | index.js:125-126 | start installs the interval, so `isRunning` (index.js:203-205) then reports true, and changes nothing else |
| Engine.Snake.Stop | index.js:196-205 | stop removes the interval if there is one, so `isRunning` then reports false, and changes nothing else |
| Engine.Snake.IsRunning | index.js:203-205 | no contract of its own; its meaning is stated by the `ensures` of `Start` and `Stop` |
| Engine.Snake.Command | index.js:207-225 | the fields become `Rules.Command` of the old state, keeping the snake well formed |
| Engine.Snake.Tick | index.js:126-193 | the in-place tick produces exactly `Rules.Tick` of the old state: new fields, game over, score callback and redraw, keeping the snake well formed |
| Engine.Snake.TurnAndMove | index.js:129-158 | a pending direction becomes the head's, the old tail cell is returned, and the parts become the shifted body with the head moved one cell |
| Engine.Snake.ShiftBody | index.js:138-141 | the tail-to-head loop leaves the head on its cell, and gives every other part its predecessor's old cell |
| Engine.Snake.ResampleFruit | index.js:171-175 | the do-while loop sets the fruit to the first draw that is on no part, and changes nothing else |
| Engine.Snake.Redraw | index.js:185-192 | the drawing calls are clear, the head, the fruit, then a box for each part from 1 to n-1 |
| Engine.Page.constructor | index.js:230-276 | loading builds the 20 x 30 board with gap 1 (index.js:249) and a running snake in the reset state, showing 0, with the invariant holding |
| Engine.Page.OnKey | index.js:252-274 | the keydown handler produces `Lifecycle.OnKey` of the old page state and keeps the invariant |
| Engine.Page.OnTimer | index.js:240-247 | one firing of the interval produces `Lifecycle.OnTimer` of the old page state, returns the tick's redraw, and keeps the invariant |

## Left out

- Canvas drawing (`drawBox`, `drawHead`, `drawFruit` and the canvas calls in `clear`) is left out. These are foreign calls with floating-point coordinates. The model only records the order of the drawing calls of each tick.
- `setInterval`, `clearInterval` and the 150 ms period are left out. They are replaced by the `running` flag and explicit ticks.
- Engine.Snake.Start: the model does not capture a second `start` while running, because a boolean cannot show two intervals. In JavaScript this would install a second interval and leak the first. No caller in the page does it: 'r' stops first, and 'p' starts only when stopped.
- `Math.random` is left out. The drawn cells are the parameter `draws`, and the model does not capture the uniform distribution. A firing whose sampling loop never ends (the full grid, see above) has no result in the model; it is recorded by `FullGridHangs` rather than modelled as a hang.
- The DOM wiring of `window.onload` is left out: `getElementById`, the `style.display` of the paused and game-over elements, `innerText`, and `addEventListener`. The model keeps only the `dead` flag and the displayed score value.
- The canvas context stored by `SnakeBoard` is left out. `fieldHeight` is recorded in the board as `height` and used nowhere, as in the source.
- Score and coordinates are unbounded integers. JavaScript numbers stay exact far beyond any reachable score or grid size.
- BoxSize: `fieldWidth / cols` is a floating-point division in the source, while the model divides exactly. The floor of the two agrees as long as the rounded quotient cannot cross an integer, which holds for canvas widths far below 2^52; this is not proved.
