# Snake game state machine in Dafny

This project models the game logic of `stylish_snake_full.py`, a pygame snake
game. The board is 30 x 20 cells and its outer ring is wall. The snake starts
as three cells at the centre, heading right. Arrow keys or W/A/S/D buffer the
next direction. A movement tick applies that direction, moves the head, ends
the game on a wall or body collision, and otherwise either eats the food
(grow, score, new food, high score) or slides (tail dropped). Speed grows with
the score up to a cap. P pauses, R restarts after a game over, Escape quits.

Modules:

- `Grid` (grid.dfy): cells, directions, the wall test, the interior and how
  many cells it has.
- `Food` (food.dfy): food placement on a free interior cell.
- `Body` (body.dfy): one movement step of the snake's cell list.
- `Rules` (rules.dfy): the play state as a value (`GameState`), the speed
  formula, key handling, the pause toggle, the tick, one frame of the main
  loop, and the invariant `Inv` that all of them keep.
- `Session` (session.dfy): class `Game`, whose fields are the loop variables of
  `play_game` (`snake`, `dir_vec`, `pending`, `food`, `score`, `high`,
  `speed`, `paused`, `game_over`). Its methods update them in place. Each
  method's `ensures` ties the new fields to the matching `Rules` function of
  the old fields and keeps `Inv`; the exception is `PlaceFood`, the eating
  half of `Tick`, which states its new fields directly and leaves `Inv` to
  `Tick`.
- `Scenarios` (scenarios.dfy): concrete situations (tail chase, first bite,
  wall hit, rejected reverse key).

`Inv` says: the body has `3 + score` cells, none repeated, all inside the
walls, each next to the following one. While the game runs, the head is one
step from the second cell in the current direction. The buffered direction
never reverses the current one. A finished game is never paused. The food is
an interior cell off the body. A positive score is at most the high score. The
shown speed lies between the start speed and the speed for the current score.

Three facts about the code shape the model:

- Moving onto the cell the tail is about to leave ends the game, because the
  body test at line 213 runs on the whole list before line 228 drops the tail
  (`Scenarios.TailCellCollides`).
- `rand_empty_cell` never returns on a full board, so an eating tick must
  leave a free cell (`Rules.FillsBoard`); `Rules.FoodAvailable` shows that a
  free cell exists exactly when that holds.
- `high` is an `int`, because `load_highscore` returns whatever integer the
  file holds; the invariant only bounds positive scores by it.

## Model

| member | source | states |
|---|---|---|
| `Grid.Step` | Snake_Game/stylish_snake_full.py:207 | a move changes the cell, along one axis only |
| `Grid.Opposite` | Snake_Game/stylish_snake_full.py:191-197 | the reverse of a direction is never the direction itself |
| `Grid.HitsWall` | Snake_Game/stylish_snake_full.py:209 | the collision test holds exactly for the cells outside the interior |
| `Grid.InInterior` | Snake_Game/stylish_snake_full.py:116 | an interior cell has 0 < x < 29 and 0 < y < 19, so it is off the wall ring |
| `Grid.StepAdjacent` | Snake_Game/stylish_snake_full.py:207 | the new head is an edge neighbour of the old head, and the opposite move leads back |
| `Grid.CellsBound` | Snake_Game/stylish_snake_full.py:222 | the set of cells of a list of n cells has at most n elements |
| `Grid.RowSize` | Snake_Game/stylish_snake_full.py:116 | a row of candidate x values 1..w holds exactly w cells |
| `Grid.RectSize` | Snake_Game/stylish_snake_full.py:116 | the rectangle 1..w by 1..h that food is drawn from holds exactly w*h cells |
| `Grid.InteriorCovered` | Snake_Game/stylish_snake_full.py:114-118 | a set of at least (30-2)*(20-2) interior cells holds every interior cell, so the draw loop finds no free cell |
| `Grid.FreeCellExists` | Snake_Game/stylish_snake_full.py:114-118 | any set of fewer than (30-2)*(20-2) cells misses some interior cell |
| `Food.RandEmptyCell` | Snake_Game/stylish_snake_full.py:114-118 | the chosen cell is in the interior (not on the wall ring) and not occupied |
| `Body.DistinctCells` | Snake_Game/stylish_snake_full.py:222 | a list without repeats occupies as many cells as it has |
| `Body.Advance` | Snake_Game/stylish_snake_full.py:207-228 | a surviving step puts the new head, an interior cell not in the old body, in front; a slide keeps the length, growth adds one cell and its head is the food |
| `Body.AdvanceOutcome` | Snake_Game/stylish_snake_full.py:209-228 | a step hits the wall iff the new head is outside the interior, hits the body iff it is inside and on the current body, grows iff it is free and on the food, slides otherwise |
| `Body.SlideShifts` | Snake_Game/stylish_snake_full.py:217-228 | a slide keeps the length, puts the new head first, shifts every cell one place back, and occupies the old cells minus the tail plus the head |
| `Body.GrowPrepends` | Snake_Game/stylish_snake_full.py:217-226 | a growth step is one cell longer, its head is the food cell, and all old cells follow unchanged |
| `Body.AdvanceKeepsShape` | Snake_Game/stylish_snake_full.py:209-228 | a slide or growth keeps the body free of repeats, inside the walls and connected |
| `Rules.Speed` | Snake_Game/stylish_snake_full.py:200 | speed always lies between the start speed 7 and the cap 24 |
| `Rules.SpeedMonotone` | Snake_Game/stylish_snake_full.py:200 | speed never decreases as the score grows, and one point adds at most one step |
| `Rules.SpeedSchedule` | Snake_Game/stylish_snake_full.py:21-23 | the cap is reached exactly from score 85; below it speed is 7 + score/5 (floor); scores 0, 4, 5, 1000 give 7, 7, 8, 24 |
| `Rules.InitialSnake` | Snake_Game/stylish_snake_full.py:152-153 | the start body is (15,10), (14,10), (13,10), well formed, head one step right of the second cell |
| `Rules.Initial` | Snake_Game/stylish_snake_full.py:152-161 | a fresh game is the start body heading right, score 0, the loaded high score, start speed, running |
| `Rules.InitialInv` | Snake_Game/stylish_snake_full.py:152-161 | a fresh game with food on a free interior cell satisfies the invariant |
| `Rules.TogglePause` | Snake_Game/stylish_snake_full.py:182-184 | only the pause flag can change, and it flips exactly when the game is not over |
| `Rules.TogglePauseSpec` | Snake_Game/stylish_snake_full.py:182-184 | the pause key does nothing after a game over, flips pausing otherwise, is its own inverse and changes nothing else |
| `Rules.Steer` | Snake_Game/stylish_snake_full.py:189-197 | a direction key changes at most the buffered direction, and only while the game runs, never to the reverse of the current direction |
| `Rules.KeyDirection` | Snake_Game/stylish_snake_full.py:190-197 | Escape, P, R and other keys name no direction; arrows and W/A/S/D each name one |
| `Rules.React` | Snake_Game/stylish_snake_full.py:177-197 | an event quits exactly when it is a window close or Escape; R restarts exactly when the game is over; P acts as the pause toggle and a direction key as steering; other keys, and R while the game runs, change nothing; no event moves the snake, food, score or high score; a quit or restart leaves the state as it was |
| `Rules.ReactAll` | Snake_Game/stylish_snake_full.py:176-197 | the frame's events leave the speed unchanged |
| `Rules.SteerSpec` | Snake_Game/stylish_snake_full.py:189-197 | a direction key is ignored while paused or over and when it reverses the current direction; otherwise it only sets the buffered direction |
| `Rules.ReactAllSpec` | Snake_Game/stylish_snake_full.py:176-197 | restart is signalled only when the game is over, quit only when the events include a window close or Escape; input never changes body, food, score, high score, direction or game-over flag |
| `Rules.ReactAllKeepsInv` | Snake_Game/stylish_snake_full.py:189-197 | any sequence of events keeps the invariant and leaves a buffered direction that does not reverse the current one |
| `Rules.Tick` | Snake_Game/stylish_snake_full.py:204-228 | a tick adds at most one point, only when it eats; the body grows by exactly the points added; the high score never drops; a finished game stays unchanged |
| `Rules.TickHalted` | Snake_Game/stylish_snake_full.py:204 | no tick takes effect while paused or after a game over |
| `Rules.TickAppliesPending` | Snake_Game/stylish_snake_full.py:206-207 | a firing tick applies the buffered direction before moving, never reverses, and never moves the head onto the second cell |
| `Rules.TickWall` | Snake_Game/stylish_snake_full.py:209-212 | a head on or beyond the wall ring ends the game with body, score, food and high score unchanged |
| `Rules.TickBody` | Snake_Game/stylish_snake_full.py:213-216 | a head on any current body cell, the tail included, ends the game with everything but the direction unchanged |
| `Rules.TickSlide` | Snake_Game/stylish_snake_full.py:217-228 | a tick without food gives head plus body minus tail, same length, score, food and high score |
| `Rules.TickGrow` | Snake_Game/stylish_snake_full.py:219-226 | an eating tick prepends the food cell, adds one cell and one point, places the new food and sets high to max(high, score) |
| `Rules.TickKeepsInv` | Snake_Game/stylish_snake_full.py:204-228 | every tick keeps the invariant (distinct interior body, food off the body, length 3 + score) when the new food is on a free interior cell |
| `Rules.FoodAvailable` | Snake_Game/stylish_snake_full.py:114-118 | a free interior cell for the new food exists exactly when the tick does not fill the board, so the draw loop returns exactly then |
| `Rules.BeforeTick` | Snake_Game/stylish_snake_full.py:199-201 | after a frame's input the speed equals the speed for the score, and body, food and score are unchanged |
| `Rules.Frame` | Snake_Game/stylish_snake_full.py:172-228 | a quit or restart returns the state after input; otherwise the pass handles input, sets the speed from the score, and, when its tick is due, the result is that tick of the state after input; score and high score never drop |
| `Rules.FrameKeepsInv` | Snake_Game/stylish_snake_full.py:172-228 | one pass of the main loop keeps the invariant, whether or not its tick is due (a due eating tick needs a free food cell), and the speed it leaves is that of the score before its tick |
| `Rules.Run` | Snake_Game/stylish_snake_full.py:172-228 | over a run of loop passes the score and high score never drop |
| `Rules.RunStep` | Snake_Game/stylish_snake_full.py:172-228 | any number of loop passes from a state satisfying the invariant keeps it; the run stops only at a quit, a restart, or a due eating tick whose food cell is not free |
| `Rules.RunKeepsInv` | Snake_Game/stylish_snake_full.py:150-228 | from the start position, through any number of loop passes, the body stays distinct, inside the walls and connected, and the food stays off it |
| `Session.Game.constructor` | Snake_Game/stylish_snake_full.py:150-161 | a new session is the start position with food on a free interior cell, and satisfies the invariant |
| `Session.Game.TogglePause` | Snake_Game/stylish_snake_full.py:182-184 | updates the fields as the pause toggle and keeps the invariant |
| `Session.Game.Input` | Snake_Game/stylish_snake_full.py:189-197 | updates the buffered direction as the key rules say and keeps the invariant |
| `Session.Game.HandleEvent` | Snake_Game/stylish_snake_full.py:177-197 | handles one event in place and returns the quit or restart signal |
| `Session.Game.HandleEvents` | Snake_Game/stylish_snake_full.py:176-197 | handles a frame's events in order, stopping at the first quit or restart |
| `Session.Game.Tick` | Snake_Game/stylish_snake_full.py:204-228 | performs the tick in place (apply direction, wall test, body test, insert head, eat or pop) and keeps the invariant |
| `Session.Game.PlaceFood` | Snake_Game/stylish_snake_full.py:219-226 | the eating branch in place: new food on an interior cell off the grown body, high raised to the score |
| `Session.Game.Frame` | Snake_Game/stylish_snake_full.py:172-228 | one pass of the loop in place: events, speed update, and the tick when due |
| `Scenarios.TailChaseValid` | Snake_Game/stylish_snake_full.py:213-216 | a four-cell snake bent into a square, heading up with Left buffered, satisfies the invariant |
| `Scenarios.TailCellCollides` | Snake_Game/stylish_snake_full.py:213-216 | moving that snake's head onto its current tail cell ends the game |
| `Scenarios.FirstTickEats` | Snake_Game/stylish_snake_full.py:217-226 | from the start with food at (16,10), one tick gives four cells (16,10)..(13,10) and score 1 |
| `Scenarios.LeftWallEndsGame` | Snake_Game/stylish_snake_full.py:209-212 | a head at (1,10) moving left ends the game with the body unchanged |
| `Scenarios.ReverseKeyRejected` | Snake_Game/stylish_snake_full.py:194-195 | moving right, a Left key changes nothing and the next tick still moves right |

## Left out

- Drawing (gradient, grid overlay, glowing food, snake sprites, HUD, overlays) and the start menu: they only read the state.
- Sound loading and playback: library calls with no effect on the state.
- Wall-clock timing (`clock.tick`, `time.time()`, `move_interval`, `t_total`): the model's `Frame` takes a boolean `due` saying whether the tick interval has elapsed.
- High-score file reading and writing: the constructor takes the value the file yielded, and `high` is a field; the write after each new high score is not modelled.
- `pygame.quit()` and `sys.exit()`: a quit event yields the `Quit` signal and nothing after it is modelled.
- The outer loop that shows the start menu and starts a new session after a restart: a `Restart` signal ends the model's session, and a new one is a new `Game`.
- Randomness in food placement: the random draw loop is modelled as an arbitrary choice of a free interior cell.
- Session.Game.Tick: requires that an eating tick leaves a free cell for the food, because the source's draw loop never returns on a full board.
- Session.Game.Frame: requires the same of the tick it performs, for the same reason; a frame whose tick is not due has no such requirement.
- Rules.RunKeepsInv: the run stops at a due eating tick whose supplied food cell is not free; there the game would draw again, or never return when the board is full.
