# Snake game engine in Dafny

This project models the game-state engine of a browser Snake game (`script.js`).
The engine plays on a 20×20 grid of integer cells. It tracks the snake (head first),
one food cell, the direction of travel, the tick interval `gameSpeed`, the score,
the running flag, the current difficulty, the obstacles of the run and the table of
best scores per difficulty. The operations are: start a run, place obstacles and
food by rejection sampling, change direction, move, test for a collision, run one
tick, eat and end the run.

Layout:

- `board.dfy`, module `Board`: cells, directions, difficulties, grid size, the
  difficulty table (base interval 100/80/60 ms, 0/3/6 obstacles), the start snake,
  `Step` (the neighbouring cell) and `Contains` (the linear membership scans).
- `rules.dfy`, module `Rules`: the rules as pure functions. These are the reversal
  guard, the collision test, the placement tests, the speed-up and the high-score
  update. Beside them are the lemmas about the snake's shape, about sampling and
  about the speed schedule.
- `game.dfy`, module `SnakeGame`: class `Game`. Its fields are the script's
  module-level variables, and there is one method per operation. `Valid()` holds
  before and after each public operation (`SetDifficulty`, `StartGame`,
  `ChangeDirection`, `GameLoop`). `MoveSnake`, `CheckCollision`, `EatFood`,
  `CreateFood`, `CreateObstacles` and `GameOver` are steps inside those operations,
  and their contracts do not mention it. `Valid()` says:
  - the high-score table has all three difficulties;
  - the interval is a multiple of 5 ms and at least 50 ms;
  - the score is a non-negative multiple of 10.

  While a run is in progress, `Playing()` also holds:
  - the snake has at least 3 segments, all in the grid and pairwise distinct;
  - the obstacles are in the grid and distinct;
  - no obstacle lies on the snake;
  - food exists, is in the grid, and is neither on the snake nor on an obstacle.
- `scenarios.dfy`, module `Scenarios`: client runs that use only the contracts.
  One eats the food right in front of the start head. One starts a Medium run.
  One drives the snake up into the top wall and checks the game-over state.

Randomness: `Math.random` is not modelled. Each call site takes a caller-supplied
stream of draws (`seq<Cell>`, each inside the grid, as `Math.floor(Math.random() * 20)`
guarantees). The sampling loops consume draws until one passes the validity test,
exactly as the `do … while` and `while (!validPosition)` loops do. Each loop's
precondition is that the stream holds an acceptable cell, which is what makes the
source's unbounded loop end:
- `CreateFood` needs one free draw.
- `CreateObstacles` needs at least `obstacleCount` distinct admissible draws.
  A pigeonhole lemma shows that each round then finds one.

The scheduler is not modelled either. One call of `GameLoop` is one firing of the
interval. `gameSpeed` is kept as a number.

`setDifficulty` has no guard (script.js:57-58), so `SetDifficulty` changes the
difficulty even during a run; the next `GameOver` then records the score under the
new difficulty.

## Model

| member | source | states |
|---|---|---|
| `SnakeGame.Game.constructor` | script.js:4-13 | Initial state: empty snake, no food, direction right, 100 ms, score 0, not running, difficulty normal, no obstacles, all best scores 0; the invariant holds |
| `SnakeGame.Game.SetDifficulty` | script.js:57-58 | Stores the chosen difficulty whether or not a run is in progress; the invariant is kept |
| `SnakeGame.Game.StartGame` | script.js:89-114 | No change at all while running; otherwise snake [(5,10),(4,10),(3,10)], direction right, score 0, interval = the difficulty's base speed, running; obstacles and food as placed by the two samplers; best scores and difficulty untouched; the running invariant is established |
| `SnakeGame.Game.CreateObstacles` | script.js:117-159 | Exactly ObstacleCount(difficulty) obstacles (0/3/6), in the grid, pairwise distinct, none on the snake, none with abs(x-5)<3 and abs(y-10)<3; they are exactly the admissible cells among some prefix of the draws |
| `SnakeGame.Game.CreateFood` | script.js:342-376 | Food is the first draw that is neither on the snake nor on an obstacle, so it is in the grid and off both |
| `SnakeGame.Game.ChangeDirection` | script.js:277-289 | The stored direction becomes NextDirection(old direction, request); nothing else changes, so the invariant is kept |
| `SnakeGame.Game.MoveSnake` | script.js:236-256 | The snake becomes the old head's neighbour in the current direction followed by all old segments, unchanged and in order |
| `SnakeGame.Game.CheckCollision` | script.js:292-315 | True exactly when the head is off the 20×20 grid, equals a segment at index 1 or later, or equals an obstacle |
| `SnakeGame.Game.EatFood` | script.js:318-338 | Score +10; new food is the first free draw; interval is SpeedAfterMeal(new score, old interval), so it stays at or above 50 ms on the 5 ms lattice |
| `SnakeGame.Game.GameOver` | script.js:379-392 | Not running; the current difficulty's best score becomes max(old best, score) and the other entries are unchanged; the result says whether the score beat the old best (the case that persists and reports a new high score) |
| `SnakeGame.Game.GameLoop` | script.js:162-184 | One tick in source order. Collision (tested with the tail still present): game over with the grown snake kept. Head on food: length +1, score +10, new food. Otherwise: the head moves and the tail is dropped, so the length is kept. Every non-fatal tick keeps the running invariant (segments in bounds and distinct, food off snake and obstacles) |
| `Board.Opposite` | script.js:279-284 | A direction is never its own opposite |
| `Board.OppositeIsInvolution` | script.js:279-284 | The opposite of the opposite is the direction itself |
| `Board.Step` | script.js:240-253 | The new head is at Manhattan distance exactly 1 from the old head |
| `Board.StepThenBack` | script.js:240-253 | A step in a direction followed by a step in its opposite returns to the start cell |
| `Board.StepInjective` | script.js:240-253 | Different directions give different new heads |
| `Board.Contains` | script.js:135-141 | The scan returns true exactly when the cell is in the list |
| `Rules.NextDirection` | script.js:277-289 | The request is stored exactly when it is not the opposite of the current direction (re-requesting the current direction included); otherwise the direction is unchanged; the result is never the opposite of the current direction |
| `Rules.TwoChangesReverse` | script.js:277-289 | The guard looks at the stored direction, not at the last move, so for every perpendicular request m, requesting m and then the opposite before one tick reverses the snake |
| `Rules.MoveKeepsWellPlaced` | script.js:170-184 | If the head does not collide, then the snake after the push and after the tail pop is still in the grid, pairwise distinct and off the obstacles |
| `Rules.MoveIntoTailCollides` | script.js:170-184 | Moving onto the tail's current cell is a collision, because the tail is popped only after the test |
| `Rules.StartSnakeShape` | script.js:92-96 | The start snake is in the grid, has distinct segments and lies inside the box around (5,10) that obstacles avoid |
| `Rules.Pigeonhole` | script.js:127-155 | A finite set of cells larger than a list has a cell outside the list; this is why each obstacle round (and the first food) finds an admissible draw |
| `Rules.SpeedAfterMeal` | script.js:333-338 | The interval drops by exactly 5 when the new score is a multiple of 50 and the interval is above 50; otherwise it is unchanged |
| `Rules.SpeedFloor` | script.js:333-338 | An interval of at least 50 ms on the 5 ms lattice stays so after a meal |
| `Rules.BaseSpeedOnLattice` | script.js:21-25 | The base intervals 100/80/60 are at least 50 and multiples of 5 |
| `Rules.MealsKeepSpeedFloor` | script.js:318-338 | After any number of meals the interval is at least 50 ms, at most where it started, and on the 5 ms lattice |
| `Rules.FiveMeals` | script.js:333-338 | Five meals from a score that is a multiple of 50 lower the interval by 5 once, unless it is already 50 |
| `Rules.SpeedSchedule` | script.js:333-338 | After 5k meals from a multiple of 50 the interval is max(50, start - 5k) |
| `Rules.HighScoreAfter` | script.js:383-386 | The new best is at least both the old best and the score, equals one of them, and exceeds the old best exactly when the score does |

## Left out

- Canvas drawing (`drawGrid`, `drawSnake`, `drawFood`, `drawObstacles`, `drawMessage`, the particles and decorations): rendering with floating point and animation clocks, no game state.
- DOM wiring, key mapping, the score element's animation and `updateHighScoreDisplay`: user-interface glue. The game-over message is reduced to the boolean returned by `GameOver`.
- `loadHighScores` / `saveHighScores`: browser storage and JSON. The table starts at zeros, as declared, and the "save" is the `true` result of `GameOver`.
- `setInterval` / `clearInterval`: timer plumbing. One `GameLoop` call stands for one interval firing, and only `gameSpeed` is kept.
- `Math.random`: replaced by caller-supplied streams of draws, as described above. A draw stream with no acceptable cell is the case where the source never terminates, so the requires exclude it. Once the snake and the obstacles cover every cell of the grid, the `do … while` loop of `createFood` (script.js:347-373) never ends whatever `Math.random` returns; in the model, `FoodDrawsSuffice` cannot be met for that eating tick.
- SnakeGame.Game.StartGame: the food-draw precondition asks for more distinct off-snake draws than there are obstacles. That is sufficient but stronger than needed, because which obstacles get placed is only known inside the call.
- SnakeGame.Game.GameLoop: requires a running game. The interval is only armed between `startGame` and `gameOver`, and the source's `gameLoop` on the initial empty snake would throw.
- SnakeGame.Game.CreateObstacles: states which draws qualify and that the obstacles are the admissible cells of a prefix of the stream, but not the order in which they are listed.
