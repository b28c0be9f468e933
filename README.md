# Snake game core, modelled in Dafny

This project models the game logic of a browser Snake game (`snake.js`): a
snake of cells moving on a 20 x 20 grid whose edges wrap around, ten fixed
obstacles, one food cell, a score, a running flag, a difficulty table that
sets the tick rate, and the keyboard handlers that steer the snake and pick
a difficulty. The module-level variables of the source (`snake`, `dir`,
`food`, `obstacles`, `score`, `running`, `fps`, `currentDifficulty` and the
interval handle) become the fields of one `Game` object, and the functions
that change them become its methods.

Modules:

- `Grid` (grid.dfy): cells, the unit directions, JavaScript's truncating `%`,
  and the wrapped step of the head.
- `Input` (input.dfy): the key table of the direction handler and the
  reversal rule, as the function `Steer`.
- `Difficulty` (difficulty.dfy): the level table and the digit shortcuts.
- `Placement` (placement.dfy): the two rejection-sampling loops stated as
  functions of the random draws they consume, and why the draws can always
  be chosen so that they stop.
- `SnakeGame` (game.dfy): the class `Game` with `Reset`, `PlaceObstacles`,
  `PlaceFood`, `Tick`, `GameOver`, `Key`, `SetDifficulty`, `ShortcutKey` and
  `ApplyInterval`. Its invariant `Valid()` says: the snake is non-empty, in
  the grid and has no repeated cell; the direction is a unit vector; there
  are exactly ten distinct obstacles in the grid, none on the snake; the
  food is in the grid and on neither the snake nor an obstacle; the level is
  one of the table's with its rate; the interval runs exactly while the game
  runs. The constructor and `Reset` establish it; `Tick`, `Key`,
  `SetDifficulty` and `ShortcutKey` keep it; `PlaceObstacles`, `PlaceFood`,
  `GameOver` and `ApplyInterval` are steps inside those and do not promise it
  on their own.
- `Scenarios` (scenarios.dfy): concrete sessions (first tick, eating,
  hitting an obstacle, wrapping at the edge) derived from the contracts alone.
- `Wrappers` (wrappers.dfy): the `Option` type.

Randomness: `Math.random` is replaced by a supplied sequence of draws, each a
cell of the grid. The source draws from one random stream, first for the
obstacles and then for the food; the model takes the two parts of that
stream as two sequences. The source loops until a draw is accepted, so each
placement asks that its draws reach acceptance: the obstacle draws must hold
at least ten distinct cells off the snake (`Placement.Enough`), the food
draws at least one free cell (`Placement.HasFree`). `NotFullHasFree` and
`ObstaclesCanBePlaced` show that such draws exist whenever the board has
room (the enumeration of every cell is one).

The interval timer is a field `timer` (`Stopped`, or `Every(fps)` ticks a
second) with a count of how often it was (re)started; `reset` and
`setDifficulty` during a game restart it, `gameOver` clears it.

Behaviour kept as the code has it:

- The self-collision test compares the new head with the whole pre-move
  body, tail included, so moving onto the cell the tail is about to leave
  ends the game (`Scenarios.TailCellCollides`).
- The reversal rule compares a key with the current direction, not with
  the direction of the last move. The evident intent is that a snake longer
  than one cell never reverses within one tick; the code lets two keys
  pressed between ticks turn it straight back
  (`Input.TwoKeysReverse`), after which the next tick is a self-collision.
  The model follows the code.
- The key handler changes the direction even after the game is over.

## Model

| member | source | states |
|---|---|---|
| Grid.Neg | snake.js:175 | the reverse of a unit direction is a unit direction and differs from it |
| Grid.JsRem | snake.js:77-78 | JavaScript `%` agrees with the Euclidean remainder on non-negative dividends and lies in (-b, 0] on negative ones |
| Grid.NextHead | snake.js:74-78 | from a cell of the grid, a unit step with `(v + size) % size` stays in the grid and is the step taken modulo 20 on each axis |
| Grid.NextHeadIsNeighbour | snake.js:74-78 | inside the grid the step is a plain move; off each of the four edges it re-enters at the opposite edge |
| Input.KeyDirection | snake.js:168-172 | exactly the eight listed keys are mapped, each to a unit direction |
| Input.KeysCoverDirections | snake.js:168-171 | each direction is named by one arrow key and one letter key |
| Input.Steer | snake.js:172-176 | an unmapped key leaves the direction; the reverse of the current direction is refused when the snake is longer than one cell; otherwise the mapped direction is taken |
| Input.SteerNeverReverses | snake.js:174-176 | the direction stays a unit vector; a snake longer than one cell is never turned straight back by one key; a one-cell snake may reverse |
| Input.TwoKeysReverse | snake.js:174-176 | moving right, "w" then "a" turns a long snake to the reverse direction |
| Difficulty.Fps | snake.js:13-17 | exactly novice, intermediate and expert have a rate, and every rate is positive |
| Difficulty.HarderIsFaster | snake.js:12-17 | novice ticks slower than intermediate, which ticks slower than expert |
| Difficulty.ShortcutLevel | snake.js:158-163 | exactly the keys "1", "2", "3" select a level, and each selects one the table knows |
| Placement.FreeIsFieldScan | snake.js:55 | the food test, two `.some` scans comparing x and y, accepts exactly the cells on neither the snake nor an obstacle (`Free`) |
| Placement.FirstFree | snake.js:51-56 | the accepted food draw is free of snake and obstacles, and every earlier draw was rejected |
| Placement.Sample | snake.js:60-70 | the obstacle loop ends with exactly ten distinct cells, none forbidden, each a draw or already placed, extending what was placed |
| Placement.SampleTakesFirstUsable | snake.js:63-68 | draws are taken in order: a usable next draw becomes the next obstacle |
| Placement.SampleSkipsUnusable | snake.js:66-67 | a next draw on a forbidden cell or on a placed obstacle is skipped and the loop goes on from the following draw |
| Placement.NotFullHasFree | snake.js:51-56 | when snake and obstacles have fewer cells than the grid, a draw of every cell reaches a free one |
| Placement.ObstaclesCanBePlaced | snake.js:60-70 | when the snake leaves room for ten obstacles, a draw of every cell lets the obstacle loop finish |
| SnakeGame.Collides | snake.js:81-84 | a head collides exactly when it is not free of the obstacles and the pre-move body |
| SnakeGame.CollidesIsFieldScan | snake.js:81-84 | the two `.some` scans comparing x and y find an obstacle or a body cell at the head exactly when `Collides` holds |
| SnakeGame.Moved | snake.js:86-95 | the head is pushed in front and the old body follows, whole when eating and without its last cell otherwise |
| SnakeGame.MovedKeepsBody | snake.js:86-95 | a non-colliding move keeps the body distinct and in the grid, puts the head first, and grows it by one cell exactly when eating |
| SnakeGame.Game.constructor | snake.js:181-184 | page start-up: intermediate level at 10 fps, then a reset; the state is valid and running |
| SnakeGame.Game.Reset | snake.js:24-33 | snake (9,9),(8,9),(7,9), direction right, score 0, running; ten obstacles from the draws off the snake; food at the first free draw; interval restarted at the current rate |
| SnakeGame.Game.ApplyInterval | snake.js:35-39 | the interval is replaced by one at the current rate |
| SnakeGame.Game.SetDifficulty | snake.js:41-49 | an unknown level changes nothing; a known one sets level and rate from the table and restarts the interval only while running; board untouched |
| SnakeGame.Game.ShortcutKey | snake.js:159-163 | "1", "2", "3" set novice, intermediate, expert and restart the interval while running; other keys change nothing |
| SnakeGame.Game.PlaceObstacles | snake.js:60-70 | the obstacles become the result of the rejection loop over the draws with the snake's cells forbidden |
| SnakeGame.Game.PlaceFood | snake.js:51-57 | the food becomes the first draw on neither the snake nor an obstacle |
| SnakeGame.Game.GameOver | snake.js:124-126 | the game stops and its interval is cleared |
| SnakeGame.Game.Tick | snake.js:72-98 | stopped: nothing changes; head on an obstacle or the pre-move body: game over, nothing moved; on food: grows by one, score + 1, new free food; else head pushed and tail dropped; invariant kept, obstacles and direction unchanged |
| SnakeGame.Game.Key | snake.js:166-177 | the direction becomes `Steer` of the old one, the snake length and the key; the invariant is kept |
| Scenarios.FirstTick | snake.js:72-95 | a fresh session's first tick with no food ahead gives (10,9),(9,9),(8,9), score 0, still running |
| Scenarios.EatingTick | snake.js:86-92 | eating on the first tick gives four cells, score 1, and the next food at the first draw off the snake |
| Scenarios.ObstacleTick | snake.js:81 | an obstacle ahead ends the game with nothing moved, and a later tick changes nothing |
| Scenarios.WrapAtRightEdge | snake.js:76-78 | a head on column 19 moving right goes to column 0 of the same row |
| Scenarios.TailCellCollides | snake.js:84 | moving onto the current tail cell is a collision although the resulting body would be valid |

## Left out

- Rendering (`draw`, `drawCell`, the game-over overlay and text): canvas output only.
- DOM work: the score text, the difficulty `<select>` (its construction and its syncing in `setDifficulty`), the restart button and the listener registration; the two keydown listeners are the methods `Key` and `ShortcutKey`.
- The interval period `1000 / fps` and wall-clock scheduling; the timer is the abstract `timer` field and a restart count.
- `Math.random`: replaced by supplied draw sequences; termination of the two rejection loops is a precondition on those draws (a full board makes the source loop forever).
- The key `"x,y"` strings of the obstacle loop's forbidden set: modelled as a set of cells, which the encoding matches one to one.
- JavaScript's inherited object properties: `map[key]` and `DIFFICULTY[level]` also accept names such as `"toString"`; no key of the keyboard or option of the selector produces one, and the model maps only the listed names.
