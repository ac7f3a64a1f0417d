# Snake game state, modelled in Dafny

This project models the game-state logic of a grid Snake game. The game
exists in two versions, and each is modelled on its own.

- **Modular version** (`src/stateManager.js`, `src/gameController.js`).
  - Module `State` holds the `StateManager` class: the snake (head first), the committed and pending directions, the input flag, food, obstacles, score, tick interval, difficulty and the run/pause flags.
  - Its methods cover direction buffering with reversal rejection, head prepend, tail pop, and score and speed steps.
  - It also has the two rejection samplers: food gives up after 100 rejected draws, and an obstacle batch after 200 draws in total.
  - Two queries answer whether the head has collided and whether it is on the food.
  - Module `Controller` holds the `GameController` class. `Update` composes the state operations into one tick. The class also holds key dispatch, start/pause/reset/game over, the high score, and the elapsed-time gate of the animation loop.
- **Single-class version** (`snake.js`), module `Legacy`, class `SnakeGame`.
  - Key presses turn `dx`/`dy` at once, case-insensitively.
  - The collision test runs on the new head before it is prepended.
  - The food sampler has no cap.
- **Tables** (`src/constants.js`), module `Constants`: the 20×20 grid, the four difficulty tiers, the score and speed steps, the four directions and the key map.

Each cell drawn with `Math.random` (one x and one y draw) is one element of an explicit `draws` sequence of board cells. The samplers are therefore deterministic functions of that sequence, and each sampler method states how many draws it took.

Every stateful method is proved against a pure definition:
- a modular tick is `Controller.Tick`;
- a legacy tick is `Legacy.LegacyTick`;
- the samplers are `State.FirstFree`, `State.FoodDrawCount` and `State.Accepted`;
- the key handling is `State.Pending` and `Legacy.Steer`.

The lemmas beside those definitions state what the game promises.

## Behaviour the model keeps as the code has it

- **The tail cell blocks, in both versions.** Moving onto the cell the tail occupies is a collision, even on a tick where the tail would have been dropped. The modular version tests after `moveSnake` and before `removeTail` (`State.TailCellBlocks`). The single-class version tests against the whole pre-move body from index 1 (`Legacy.LegacyTailCellBlocks`). The usual rule, where a vacated tail cell is free, is not what either version does.
- **The modular version can empty the snake.** A tick before any accepted key does not prepend a head, but `update` still pops the tail. A one-cell snake therefore becomes empty (`Controller.IdleTickEmptiesSnake`). The next tick reads the head of an empty snake, which throws a TypeError in the browser. The model reports this as the outcome `Fault`, and the frame does not record its time (`Controller.SecondIdleTickFaults`, `Controller.GameController.GameLoop`). The single-class version keeps the snake in place on such a tick (`Legacy.LegacyIdleTickKeepsSnake`).
- **`reset` forgets the difficulty.** It sets the tier back to MEDIUM and the interval to 150, whatever tier was chosen (`State.StateManager.IsReset`).
- **The single-class version can reverse within one tick.** Two presses can reverse the snake, because each press is checked against the `dx`/`dy` the previous press already changed (`Legacy.LegacyDoubleTurnReverses`, `Legacy.DoubleTurnCrashes`). The modular version checks every request against the committed direction, so the commit never reverses (`State.PendingNeverReverses`).
- **The obstacle count is at most the tier's count, not exactly that count.** Fewer obstacles are placed when the 200 draws run out.
- **After a game over, `startGame` runs again without a reset.** It reuses the crashed snake and keeps the score. On EASY it also keeps the previous obstacles. `setDifficulty` is accepted mid-game and changes the interval at once.

## Model

| member | source | states |
|---|---|---|
| Constants.GridIsTwentyByTwenty | src/constants.js:2-4 | 400 / 20 = 20 cells on each axis; a board cell is exactly a cell of the 20-by-20 board |
| Constants.TierSpeed | src/constants.js:5-13 | every tier interval is positive; MEDIUM's is `INITIAL_SPEED`; EXPERT's is below `MIN_SPEED` |
| Constants.TierSpeeds | src/constants.js:9-14 | the intervals are 200, 150, 100 and 70, and a harder tier ticks strictly faster |
| Constants.Direction | src/constants.js:17-22 | each named direction is a unit vector |
| Constants.DirectionsPairUp | src/constants.js:17-22 | UP/DOWN and LEFT/RIGHT negate each other, the names are distinct vectors, and every unit vector is one of them |
| Constants.KeyMapExact | src/constants.js:24-37 | the key map holds exactly the arrow keys and both cases of w/a/s/d, and both cases of a letter map to the same direction |
| State.ReversesIsNegation | src/stateManager.js:42-47 | for unit requests, the four-clause test rejects exactly the negation of a non-zero committed direction |
| State.PendingNeverReverses | src/stateManager.js:40-58 | however many requests arrive between two commits, the pending direction never reverses the committed one |
| State.ReverseRequestDropped | src/stateManager.test.js:88-102 | RIGHT committed, LEFT requested: the pending direction stays RIGHT |
| State.Advance | src/stateManager.js:60-72 | a moving snake gains the head `snake[0] + direction` with the old cells behind it; a snake with no input and no direction is unchanged |
| State.FirstFree | src/stateManager.js:84-93 | the index of the first draw off the snake and the obstacles, with every earlier draw occupied, or the length when none is free |
| State.FoodDrawCount | src/stateManager.js:74-96 | the food sampler takes 1 to 101 draws; within 100 draws it stops at the first free cell, with all earlier draws occupied |
| State.Accepted | src/stateManager.js:98-126 | the obstacles kept from a run of draws: at most one per draw, each draw tested against the snake, the food and the batch kept so far |
| State.AcceptedPlacement | src/stateManager.js:98-126 | the kept obstacles are drawn cells, pairwise distinct, off the snake and the food, and on the board when the draws are |
| State.StepSpeed | src/stateManager.js:136-140 | the interval drops by 5 exactly when it is above 80, otherwise stays; it never increases |
| State.SpeedFloor | src/stateManager.js:136-140 | every tier starts at a reachable interval, a step keeps it reachable and not below 80 unless it was already below, and EXPERT's 70 never changes |
| State.Collides | src/stateManager.js:147-175 | a collision is exactly: head off the 20-by-20 board, or equal to `snake[i]` for some i ≥ 1, or equal to some obstacle |
| State.TailCellBlocks | src/stateManager.js:161-165 | moving onto the current tail cell is a collision |
| State.StateManager.constructor | src/stateManager.js:4-6 | a new state is the reset state |
| State.StateManager.Reset | src/stateManager.js:8-25 | snake `[(10,10)]`; both directions zero; no input; no obstacles; food from the draws as the sampler picks it; score 0; stopped and unpaused; interval 150; MEDIUM; invariant established |
| State.StateManager.SetDifficulty | src/stateManager.js:27-30 | the tier becomes `level` and the interval that tier's interval |
| State.StateManager.GetDifficulty | src/stateManager.js:32-34 | the entry of the current tier: its interval and a non-empty name |
| State.StateManager.SetDirection | src/stateManager.js:40-54 | a reversing request changes nothing; any other becomes the pending direction and sets the input flag |
| State.StateManager.UpdateDirection | src/stateManager.js:56-58 | the committed direction becomes the pending one and does not reverse the previous committed direction |
| State.StateManager.MoveSnake | src/stateManager.js:60-72 | the snake becomes `Advance` of the old snake: length +1 with the old cells following, or unchanged before any input |
| State.StateManager.GenerateFood | src/stateManager.js:74-96 | returns the draw `FoodDrawCount` selects and that count (at most 101); the cell is on the board, and off the snake and the obstacles when found within 100 draws |
| State.StateManager.GenerateObstacles | src/stateManager.js:98-126 | the obstacles become `Accepted` of the draws taken: at most `count` and at most 200 draws, stopping as soon as `count` are placed; on the board, distinct, off the snake and the food |
| State.StateManager.RemoveTail | src/stateManager.js:128-130 | the last cell is dropped; an empty snake stays empty |
| State.StateManager.IncreaseScore | src/stateManager.js:132-134 | the score rises by exactly 10 |
| State.StateManager.IncreaseSpeed | src/stateManager.js:136-140 | the interval becomes `StepSpeed` of the old one and does not increase |
| State.StateManager.IsFoodEaten | src/stateManager.js:142-145 | true exactly when the head's coordinates equal the food's |
| Controller.ObstacleCounts | src/gameController.js:76-92 | EASY, MEDIUM, HARD and EXPERT ask for 0, 3, 5 and 8 obstacles, strictly more for a harder tier |
| Controller.TickShape | src/gameController.js:140-162 | only an empty snake faults; a moving tick prepends the new head and then keeps the old body (collision, meal) or drops its tail; a tick without movement keeps or pops |
| Controller.TickOutcomes | src/gameController.js:146-161 | a tick is a collision exactly when `Collides` holds on the moved snake, and a meal exactly when it does not and the head is on the food |
| Controller.IdleTickEmptiesSnake | src/gameController.js:140-162 | before any input, a tick of a one-cell snake off the food and the obstacles leaves the snake empty |
| Controller.SecondIdleTickFaults | src/gameController.js:140-151 | the tick after that faults, whatever was pressed in between |
| Controller.TickKeepsBodySound | src/stateManager.js:147-175 | a tick that neither collides nor faults keeps the body on the board, free of repeated cells and off the obstacles |
| Constants.NewHighScore | src/gameController.js:179-181 | the new high score is the larger of the old one and the score, so it never decreases |
| Controller.GameController.constructor | src/gameController.js:6-21 | a newly allocated state in its reset state, and the stored high score, or 0 when none is stored |
| Controller.GameController.HandleKeyPress | src/gameController.js:43-63 | ignored unless running and unpaused; a mapped key asks for that name's unit vector, with the rejection rule of `setDirection`; an unmapped key changes nothing |
| Controller.GameController.SetDifficulty | src/gameController.js:65-71 | the state's tier and interval become those of `level` |
| Controller.GameController.StartGame | src/gameController.js:73-102 | only when not running: the tier's obstacles are placed (none, and the old ones kept, on EASY), as `Accepted` of the draws used, stopping at the draw that completes the count or at 200 draws; then running and unpaused; otherwise nothing changes |
| Controller.GameController.TogglePause | src/gameController.js:104-116 | flips the pause flag while running, no effect otherwise |
| Controller.GameController.ResetGame | src/gameController.js:118-126 | the state is the reset state; the high score is untouched |
| Controller.GameController.GameOver | src/gameController.js:172-187 | stops the game; the high score becomes `NewHighScore` of the old high score and the score |
| Controller.GameController.Update | src/gameController.js:140-162 | commits the pending direction, and outcome and snake are `Tick` of the state before; a collision stops the game and updates the high score; a meal adds 10, steps the interval and takes the sampler's food; otherwise score, food and interval are unchanged |
| Controller.GameController.GameLoop | src/gameController.js:128-138 | ticks exactly when running, unpaused and `currentTime - lastRenderTime >= gameSpeed`, changing nothing otherwise; a tick is `Tick` of the state before, with `Update`'s effects on score, food, interval, run flag and high score for each outcome; after a tick that does not fault `lastRenderTime` is `currentTime` |
| Legacy.ToLower | snake.js:60 | lower-casing keeps the length and lower-cases each character |
| Legacy.ToLowerIdempotent | snake.js:60 | lower-casing twice is lower-casing once |
| Legacy.LowerIsMeans | snake.js:60-62 | the character-by-character key test is equality of the lower-cased key with the name |
| Legacy.LegacyKeyIgnoresCase | snake.js:57-92 | a key and its lower-cased form select the same direction |
| Legacy.LegacyUpKeys | snake.js:63-69 | "ArrowUp", "ARROWUP", "w" and "W" select UP |
| Legacy.LegacyDownKeys | snake.js:70-76 | "ArrowDown", "s" and "S" select DOWN |
| Legacy.LegacyLeftKeys | snake.js:77-83 | "ArrowLeft", "a" and "A" select LEFT |
| Legacy.LegacyRightKeys | snake.js:84-90 | "ArrowRight", "d" and "D" select RIGHT |
| Legacy.LegacyKeyExtendsKeyMap | snake.js:57-92 | every key of the modular key map selects the same direction here, and "ARROWUP" is mapped here but not there |
| Legacy.SteerOnePress | snake.js:62-91 | one press gives a unit motion: the named direction, or the old motion when that is its exact reverse; one press never reverses a motion |
| Legacy.LegacyDoubleTurnReverses | snake.js:65-90 | for every motion there are two presses that together reverse it |
| Legacy.LegacyTickShape | snake.js:139-163 | a crash is exactly `Blocked` on the new head, and leaves the snake as it was; a meal prepends (length +1); any other tick prepends and drops the tail (length unchanged) |
| Legacy.LegacyIdleTickKeepsSnake | snake.js:139-163 | with `dx = dy = 0`, a one-cell snake off the food stays as it is |
| Legacy.LegacyTailCellBlocks | snake.js:173-177 | moving onto the current tail cell is a crash |
| Legacy.DoubleTurnCrashes | snake.js:139-146 | a snake reversed by two presses crashes into its second cell |
| Legacy.SnakeGame.constructor | snake.js:12-17 | a reset game on the given board: snake `[(10,10)]`, no motion, the first free draw as food, score 0, stopped and unpaused, interval 150, no frame time yet; the stored high score or 0 |
| Legacy.SnakeGame.Reset | snake.js:21-36 | snake `[(10,10)]`, no motion, food the first draw off the snake, score 0, stopped, unpaused, interval 150; the high score is kept |
| Legacy.SnakeGame.GenerateFood | snake.js:38-48 | returns the first draw off the snake and the number of draws taken |
| Legacy.SnakeGame.HandleKeyPress | snake.js:57-92 | ignored unless running and unpaused; a direction key sets `(dx, dy)` to `Steer` of the old motion; other keys change nothing |
| Legacy.SnakeGame.StartGame | snake.js:94-103 | only when not running: running and unpaused |
| Legacy.SnakeGame.TogglePause | snake.js:105-117 | flips the pause flag while running, no effect otherwise |
| Legacy.SnakeGame.ResetGame | snake.js:119-125 | the game is the reset game |
| Legacy.SnakeGame.CheckCollision | snake.js:165-180 | true exactly when the head is off the board on either axis or equals `snake[i]` for some i ≥ 1 |
| Legacy.SnakeGame.GameOver | snake.js:182-197 | stops the game; the high score becomes `NewHighScore` of the old high score and the score |
| Legacy.SnakeGame.Update | snake.js:139-163 | outcome and snake are `LegacyTick` of the state before; a crash stops the game and leaves score, food and interval; a meal adds 10, steps the interval and takes the first free draw as food; the snake never becomes empty |
| Legacy.SnakeGame.GameLoop | snake.js:127-137 | ticks exactly when running, unpaused and the interval has elapsed, then records `currentTime`; a tick is `LegacyTick` of the state before, with `Update`'s effects on score, food, interval, run flag and high score for each step; otherwise nothing changes |

These definitions carry no contract of their own; the members named state their properties:
- `Controller.Tick` (src/gameController.js:140-162): `Controller.TickShape`, `Controller.TickOutcomes`, `Controller.TickKeepsBodySound` and `Controller.GameController.Update`.
- `Legacy.LegacyTick` (snake.js:139-163): `Legacy.LegacyTickShape`, `Legacy.LegacyTailCellBlocks` and `Legacy.SnakeGame.Update`.
- `Legacy.Steer` (snake.js:62-91): `Legacy.SteerOnePress`, `Legacy.LegacyDoubleTurnReverses` and `Legacy.SnakeGame.HandleKeyPress`.
- `Legacy.LegacyKey` (snake.js:60-91): `Legacy.LegacyKeyIgnoresCase`, the four `Legacy.Legacy...Keys` lemmas and `Legacy.LegacyKeyExtendsKeyMap`.
- `State.Pending` and `State.PendingAfter` (src/stateManager.js:40-54): `State.ReversesIsNegation`, `State.PendingNeverReverses` and `State.StateManager.SetDirection`.
- `Constants.KeyMap` (src/constants.js:24-37): `Constants.KeyMapExact`.
- `Constants.DifficultyLevel` (src/constants.js:9-14): `Constants.TierSpeed`, `Constants.TierSpeeds` and `State.StateManager.GetDifficulty`.
- `Controller.ObstacleCount` (src/gameController.js:77-89): `Controller.ObstacleCounts` and `Controller.GameController.StartGame`.
- `State.Reverses` (src/stateManager.js:42-47): `State.ReversesIsNegation`, `State.ReverseRequestDropped` and `State.StateManager.SetDirection`.
- `State.Moves` (src/stateManager.js:62): `State.Advance`, `Controller.TickShape` and `State.StateManager.MoveSnake`.
- `State.IsFree` (src/stateManager.js:91-93, and snake.js:45 for the single-class sampler): `State.FirstFree`, `State.FoodDrawCount`, `State.StateManager.GenerateFood` and `Legacy.SnakeGame.GenerateFood`.
- `Controller.Due` (src/gameController.js:131): `Controller.GameController.GameLoop`.
- `Legacy.Blocked` (snake.js:165-180): `Legacy.LegacyTickShape`, `Legacy.LegacyTailCellBlocks`, `Legacy.DoubleTurnCrashes` and `Legacy.SnakeGame.CheckCollision`.

## Left out

- Rendering is not part of this model: the renderer, `draw`, `drawGrid`, the snake's eyes and the food highlight. Neither are status texts, button states, score display and `alert`. These are presentation only.
- `requestAnimationFrame` rescheduling is host scheduling. One call of `GameLoop` is one frame, and frame times are integers instead of the host's floating-point milliseconds. After a faulting tick the browser's rAF chain ends, because the exception leaves the callback; the model only reports `Fault`.
- `localStorage` and `parseInt` are external. The stored high score is passed to the constructors already parsed, as an `Option<int>`. A stored value that parses to NaN is not modelled, and neither is `saveHighScore`.
- `Math.random`: each cell draw is an element of `draws`, and every element is on the board. A floored random fraction times 20 always is.
- `getDifficultyLevels` only returns the tier table, which is `Constants.DifficultyLevel`.
- Difficulty names outside the four tiers are not modelled. The tier is the `Difficulty` datatype; in the browser such a name makes `setDifficulty` throw.
- A key that names an inherited object property, such as "toString", is looked up as truthy but matches no case of the `switch`. It is modelled as an unmapped key, with the same effect: nothing.
- Legacy.ToLower: lower-cases ASCII letters only; other characters are kept as they are.
- Legacy.SnakeGame.GenerateFood: requires that some draw is off the snake. In the browser the uncapped loop never ends otherwise, and that divergence is not modelled.
- Legacy.SnakeGame.Update: requires a free draw only on an eating tick, for the same reason.
- `tileCount` is read from the canvas, so it is a positive constructor parameter. A canvas width that is not a multiple of the cell size is not modelled.
- State.StateManager.GenerateObstacles: builds the batch in a local sequence and stores it in `obstacles` once, where the JavaScript pushes each obstacle onto the field. The other-obstacle test reads the batch drawn so far, which the model keeps in `placed`. Nothing outside the sampler reads the field while the batch is drawn, so only the timing of the writes differs.
- State.StateManager.CheckCollision carries no contract of its own. It is `Collides` on the current snake and obstacles, and `State.Collides` states the property.
- The modular `update`'s calls of `draw` and `updateScoreDisplay` are presentation, and are not modelled.
