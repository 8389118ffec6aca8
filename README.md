# Snake game core in Dafny

This is a model of the simulation in `script.js` of the browser snake game. The snake lives on a 20 × 20 board. At each tick it moves one cell, wrapping around the edges. It grows by one cell for each food it eats. A ruby is worth ten points and gives six seconds of invincibility. Obstacle chains are regenerated or cleared as the score changes. Every ninth point halves the tick interval and doubles the number of obstacle chains. A food not eaten within ten seconds ends the session.

The model is in two layers.

- **Pure specification** (modules `Grid`, `Entities`, `Placement`, `Obstacles`, `Session`, `Engine`):
  - The script's module-level variables are one `World` value.
  - `update`, `placeFood`, `spawnRuby`, `generateObstacles`, `resetGame`, `startGame`, `setDirection`, `gameOver` and the state changes `handleKeyDown` makes are functions over that value.
  - `TickProperties` and `Scenarios` prove what a tick promises.
- **Imperative layer** (module `Game`):
  - `class GameState` holds the same variables as fields.
  - Its methods update those fields statement by statement, as the script does.
  - Each method is proved to leave the state its specification function describes (`Snapshot() == Spec(old(Snapshot()), …)`).
  - The loops of the script are `while` loops with invariants: the segment scans, placeFood's retry, the start search and the walk of generateObstacles, and the chain loop.

The random source becomes explicit draws:

- the cells placeFood samples, in order;
- the 30 % roll of the ruby gate, and the one cell spawnRuby samples;
- for each obstacle chain: its 50 candidate starts, its first direction, and a keep-or-turn decision for each of its five extensions.

`Date.now()` becomes a parameter `now`. The sounds a tick plays become the events `Turned`, `Ate` and `Died`.

The state invariant `Entities.Valid` covers:

- the flags agree with each other;
- every cell is on the board;
- the directions are unit vectors;
- the buffered direction never reverses the committed one;
- speed and chain count are 200 ms with one chain, 100 ms with two, 50 ms with four, or 30 ms with eight or more chains. The last case also admits chain counts a session never reaches, such as nine.

`TickValid`, `StartGameValid`, `SpaceKeyValid` and `ArrowKeyValid` show that every entry point of the game keeps this invariant: a tick of `update`, `startGame`, the space bar and an arrow key. `Game.GameState`'s constructor establishes it, and its `Update`, `StartGame`, `HandleSpace` and `HandleArrow` methods keep it. The step methods are the pieces these are built from and need not keep it on their own. For example, `TogglePauseStep` before the first session, or `SetDirection` with a non-unit vector, leave an invalid state.

Where behaviour is easy to misread, the model follows the code:

- Resuming from a pause moves only the food deadline forward. The ruby's age and the end of invincibility keep running.
- The collision test looks at the snake before it moves, so moving onto the cell the tail is leaving ends the session (`TailCellIsDeadly`).
- After a food timeout the ruby stays on the board (`TickTimeout`).
- `startGame` does not reset `lastRubySpawnScore`.
- `resetGame` places the food before it clears the ruby and the obstacles. So the new food avoids the new snake and also the ruby and obstacles of the session before.
- Invincibility that has run out is only switched off at the end of the tick that notices it, so that tick cannot die either (`ExpiringInvincibilityCoversOneTick`).

## Model

| member | source | states |
|---|---|---|
| Grid.ReverseIsNotSelf | script.js:672-676 | a unit direction differs from its reverse, which is again a unit direction |
| Grid.UnitIsInTable | script.js:301-303 | the four-entry direction table holds exactly the unit directions |
| Grid.NextHead | script.js:387-391 | the clamped head is always on the board and, from an on-board cell and a unit direction, shares a side with the old head on the torus |
| Grid.Clamp | script.js:388-391 | the tick's edge handling per axis: below zero becomes the last tile, past the last tile becomes zero, otherwise unchanged |
| Grid.ModStep | script.js:313-314 | one step of the obstacle walk: `(coordinate + delta + 20) % 20` per axis, with JavaScript's remainder |
| Grid.JsRem | script.js:313-314 | JavaScript's remainder: non-negative and equal to the Euclidean remainder for a non-negative dividend, in (-n, 0] for a negative one |
| Grid.ModAxis | script.js:313-314 | per axis, the walk's `(v + e + 20) % 20` equals the tick's clamp for every on-board coordinate and step in -1..1 |
| Grid.ModStepIsNextHead | script.js:313-314 | the obstacle walk's modular step and the tick's wrap agree, so each walk step lands on the board next to the previous cell |
| Placement.Occupies | script.js:238-243 | the segment scan reports true exactly when the cell is in the list |
| Placement.FirstFree | script.js:231-255 | the kept draw is the first draw not on the snake, the ruby or an obstacle; every earlier draw is occupied |
| Placement.PlaceFood | script.js:231-255 | with a free draw the food is that first free draw, on no snake cell, ruby or obstacle, with spawn time now; any draw sets the spawn time; only food and spawn time change |
| Placement.SpawnRuby | script.js:257-273 | an existing ruby is kept; otherwise a ruby appears exactly when the sampled cell is off the snake, the food and the obstacles, with spawn time now; nothing else changes |
| Obstacles.FirstStart | script.js:283-298 | the start search stops at the first candidate at distance 5 or more from the head, off the snake and not on the food; all earlier ones fail |
| Obstacles.Perp | script.js:309 | filtering the table leaves three unit directions, none the reverse of the heading |
| Obstacles.Heading | script.js:307-311 | a step decision keeps the heading or turns to a non-reversing unit direction |
| Obstacles.Walk | script.js:305-319 | the walk from the current chain: one modular step per decision in the heading that decision gives, stopping before the first cell already in the chain |
| Obstacles.ChainFor | script.js:279-320 | one chain: empty when none of the 50 start draws is acceptable, otherwise the walk from the first acceptable one in the drawn initial direction |
| Obstacles.GenerateObstacles | script.js:275-322 | the obstacle list becomes the concatenation of speedMultiplier chains built from the head, snake and food; nothing else changes |
| Obstacles.Chains | script.js:277-321 | the chain list has one entry per chain index, each the chain built from that index's draws |
| Obstacles.WalkShape | script.js:305-319 | the walk extends the chain by at most one cell per step, with distinct on-board cells each adjacent to the previous one |
| Obstacles.ChainForShape | script.js:283-320 | a chain is empty exactly when all 50 start draws fail; otherwise it has 1 to 6 distinct linked on-board cells beginning at an acceptable start |
| Obstacles.ObstacleShape | script.js:275-322 | the obstacle list is the concatenation of speedMultiplier chains, each skipped or well shaped |
| Obstacles.FlattenInGrid | script.js:320 | concatenating on-board chains gives on-board cells |
| Obstacles.FlattenEmpty | script.js:299 | concatenating only skipped chains gives no cells |
| Obstacles.AllStartsFailNoObstacles | script.js:275-322 | when every chain's 50 start draws all fail, generateObstacles leaves no obstacles |
| Obstacles.ObstaclesInGrid | script.js:275-322 | every generated obstacle is on the board |
| Obstacles.ChainsStep | script.js:320 | one more iteration of the chain loop appends that chain to the list |
| Obstacles.FindStart | script.js:283-299 | the attempt loop stops at the first acceptable candidate, or after 50 failed attempts |
| Obstacles.WalkChain | script.js:300-319 | the push loop walks from the start and stops at the first repeated cell, building 1 to 6 cells |
| Obstacles.BuildChain | script.js:279-320 | one iteration of the chain loop builds the chain its draws determine |
| Session.Initial | script.js:97-118 | before the first session the state is valid, not started, not running, paused, with no snake |
| Session.GameOver | script.js:678-685 | the session is over and not running; the high score becomes the larger of the high score and the score; nothing else changes |
| Session.ResetGame | script.js:324-337 | the start snake and direction, no ruby, no obstacles, no invincibility; the new food is off the snake when a draw was free; only those fields, the food and its spawn time change |
| Session.StartGame | script.js:339-351 | no effect while running; otherwise a running, unpaused session with score 0, base speed, one chain, the start snake and all three directions reset, an empty board, no invincibility, and a fresh food spawned now, off the start snake when a draw was free |
| Session.SetDirection | script.js:672-676 | a request for the exact reverse of the committed direction is dropped; any other request becomes the buffered direction; only the buffered direction changes |
| Session.TogglePause | script.js:630-646 | pausing records the time; resuming moves the food's spawn time forward by exactly the pause's length; the flag flips |
| Session.SpaceKey | script.js:600-646 | the space bar: startGame before the first session and after game over, the pause toggle otherwise |
| Session.ArrowKey | script.js:618-629 | an arrow key: ignored before the first session, after game over and while paused; otherwise setDirection |
| Session.PauseKeepsFoodAge | script.js:630-646 | pausing at t1 and resuming at t2 leaves the food exactly as old at t2 as it was at t1, with ruby and invincibility untouched |
| Session.ArrowKeyKeepsNoReversal | script.js:625-629 | after any arrow key the buffered direction is not the reverse of the committed one, and a reversal request changes nothing |
| Session.GameOverValid | script.js:678-685 | gameOver from an unpaused valid state gives a valid state |
| Session.StartGameValid | script.js:339-351 | startGame keeps the state invariant |
| Session.SpaceKeyValid | script.js:600-646 | the space bar, which starts a session or toggles the pause, keeps the state invariant |
| Session.ArrowKeyValid | script.js:625-629 | an arrow key keeps the state invariant |
| Engine.SpeedUp | script.js:410-414 | the speed/chain pair stays one of 200/1, 100/2, 50/4, 30/8+; only speed and chain count change |
| Engine.ObstaclePolicy | script.js:415-420 | on a positive multiple of 6 the obstacles are regenerated, on any other positive score they are cleared, otherwise nothing changes; only the obstacles change |
| Engine.RubyGate | script.js:421-425 | through the gate the spawn score is recorded whatever spawnRuby does; outside it nothing changes; only ruby and spawn score change |
| Engine.EatFood | script.js:406-426 | the food branch: one point, the speed-up, the obstacle policy, the ruby gate, then a new food, in that order |
| Engine.CollectRuby | script.js:431-442 | the ruby branch: ten points, no ruby, invincibility until now + 6000, then the obstacle policy |
| Engine.ExpireTimers | script.js:443-448 | afterwards invincibility has time left and a ruby is at most 6000 ms old; conversely invincibility with time left and a ruby at most 6000 ms old are kept; only those two change |
| Engine.Commit | script.js:379-385 | the buffered direction becomes the committed one, and lastDir follows it when they differ |
| Engine.Moved | script.js:403-429 | the head goes in front of the committed-direction snake; on the food the food branch runs, otherwise the tail is dropped |
| Engine.AfterMove | script.js:430-448 | the ruby under the head is collected, then invincibility and the ruby expire |
| Engine.Collides | script.js:392-402 | the collision test: not invincible, and the wrapped head is on a segment of the snake before it moves or on an obstacle |
| Engine.Survive | script.js:403-448 | a tick without collision: the move, the ruby check and the timers, with the turn sound and one eat sound for the food and one for the ruby |
| Engine.Advance | script.js:379-402 | a running tick: a collision ends the session after the direction commit with the turn and die sounds; otherwise the tick survives |
| Engine.Tick | script.js:375-376 | a paused or finished game is left exactly as it is, with no sound |
| TickProperties.EatFoodFrame | script.js:406-426 | eating changes only score, speed, chain count, obstacles, ruby, spawn score and food |
| TickProperties.EatFoodScore | script.js:406-414 | eating adds one point and keeps the snake; on a multiple of 9 the interval halves (floor 30) and the chain count doubles, otherwise both stay |
| TickProperties.EatFoodObstacles | script.js:415-420 | after eating, a score divisible by 6 regenerates the obstacles with the new chain count, any other score clears them |
| TickProperties.EatFoodRubyAndFood | script.js:421-426 | outside the gate ruby and spawn score stay; through it the spawn score is the new score and any new ruby is on a free cell; the new food is on a free cell when a draw was free |
| TickProperties.CollectRubyEffects | script.js:431-442 | the ruby gives ten points, disappears, grants invincibility until now + 6000 and re-applies the obstacle policy; nothing else changes |
| TickProperties.TickTimeout | script.js:378 | a running tick past the food deadline is gameOver with no sound, and the snake, direction, score and ruby stay |
| TickProperties.TickCollision | script.js:392-402 | a running tick ends the session exactly when the snake is not invincible and the wrapped head is on the snake (tail included) or an obstacle; then the board and score are unchanged and the die sound plays |
| TickProperties.TailCellIsDeadly | script.js:393-397 | moving onto the tail's cell ends the session |
| TickProperties.InvincibleSurvives | script.js:393 | an invincible snake never dies in a running tick |
| TickProperties.SurvivingTick | script.js:403-448 | a running tick without collision is the move, then the ruby check and the timers |
| TickProperties.MovedEffects | script.js:380-429 | the move commits the direction, puts the head in front and keeps the whole body on food, all but the tail otherwise; the score gains the food point |
| TickProperties.AfterMoveEffects | script.js:430-448 | the ruby check and timers keep snake, direction, flags and speed, add ten points only for the ruby, and leave only a ruby younger than 6001 ms; invincibility with time left and an uncollected young ruby are kept |
| TickProperties.TickMovement | script.js:380-429 | a surviving tick moves the head to the adjacent wrapped cell in the buffered direction; the snake grows by one on food and otherwise keeps its length |
| TickProperties.TickScore | script.js:406-442 | the score never falls during a tick; a surviving tick adds 1 for the food and 10 for the ruby |
| TickProperties.TickTimers | script.js:431-448 | after a surviving tick invincibility has time left, any ruby is at most 6000 ms old, and collecting the ruby gives invincibility until now + 6000; invincibility with time left survives the tick, and a ruby at most 6000 ms old that the head does not reach stays |
| TickProperties.MovedKeepsTimers | script.js:403-429 | the move leaves invincibility and its end time as they were, and an existing ruby in place |
| TickProperties.ExpiringInvincibilityCoversOneTick | script.js:393-446 | a tick at or after the end of invincibility still cannot die and, when the head does not collect a ruby on that tick, switches invincibility off |
| TickProperties.ObstaclePolicyValid | script.js:415-420 | the obstacle policy keeps all obstacles on the board |
| TickProperties.EatFoodValid | script.js:406-426 | the food branch keeps obstacles, food and ruby on the board, and the speed table |
| TickProperties.MovedValid | script.js:380-429 | the move keeps the board, speed and flag invariants and commits the buffered direction |
| TickProperties.ExpireTimersValid | script.js:443-448 | the timers keep the state invariant |
| TickProperties.RubyBranchValid | script.js:430-442 | the ruby branch keeps the state invariant |
| TickProperties.CollisionValid | script.js:392-402 | a collision ends the session in a valid state |
| TickProperties.SurviveValid | script.js:403-448 | a surviving tick ends in a valid state |
| TickProperties.TickValid | script.js:375-450 | every call of update keeps the state invariant |
| Scenarios.FirstBiteGrows | script.js:324-331 | from the start snake heading right with the food at (11,10), one tick gives the snake (11,10),(10,10),(9,10),(8,10), one point and the eat sound |
| Scenarios.NinthPointSpeedsUp | script.js:410-414 | eating the ninth point at 200 ms gives 100 ms and two chains |
| Scenarios.StaleRubyVanishes | script.js:447-448 | a ruby spawned at t is gone after any surviving tick at t + 6001 or later |
| Game.GameState.constructor | script.js:97-118 | the fields start as the script declares them, and the state is valid |
| Game.GameState.PlaceFood | script.js:231-255 | the retry loop leaves the state placeFood describes and reports whether a free draw was found |
| Game.GameState.SpawnRuby | script.js:257-273 | the method leaves the state spawnRuby describes |
| Game.GameState.GenerateObstacles | script.js:275-322 | the chain loop leaves the obstacle list generateObstacles describes |
| Game.GameState.ApplyObstaclePolicy | script.js:415-420 | the branch leaves the state the obstacle policy describes |
| Game.GameState.ResetSnakeStep | script.js:325-331 | the start snake and directions |
| Game.GameState.ClearBoardStep | script.js:333-336 | no ruby, no obstacles, no invincibility |
| Game.GameState.ResetGame | script.js:324-337 | the method leaves the state resetGame describes |
| Game.GameState.BeginSession | script.js:343-346 | the flags startGame sets |
| Game.GameState.ResetScoring | script.js:347-349 | the counters startGame resets |
| Game.GameState.FreshSessionStep | script.js:343-349 | the flags and counters startGame sets before resetGame |
| Game.GameState.StartGame | script.js:339-351 | the method leaves the state startGame describes and keeps the invariant |
| Game.GameState.SetDirection | script.js:672-676 | the method leaves the state setDirection describes |
| Game.GameState.GameOver | script.js:678-685 | the method leaves the state gameOver describes |
| Game.GameState.TogglePauseStep | script.js:630-646 | the method leaves the state the pause toggle describes |
| Game.GameState.HandleSpace | script.js:600-646 | the space bar starts a session before the first one or after game over and toggles the pause otherwise, keeping the invariant |
| Game.GameState.HandleArrow | script.js:618-629 | an arrow key sets the direction only in a running, unpaused session, keeping the invariant |
| Game.GameState.CommitDirection | script.js:379-385 | nextDir becomes dir; the turn sound is due exactly when it differs from the last direction, which is then updated |
| Game.GameState.HitsSomething | script.js:392-402 | the scans report a collision exactly when the snake is not invincible and the head is on a segment or an obstacle |
| Game.GameState.SpeedUpStep | script.js:410-414 | the method leaves the state the speed-up describes |
| Game.GameState.ScoreStep | script.js:407-414 | one point, then the speed-up |
| Game.GameState.RubyGateStep | script.js:421-425 | the method leaves the state the ruby gate describes |
| Game.GameState.EatStep | script.js:406-426 | the method leaves the state the food branch describes |
| Game.GameState.MoveStep | script.js:403-429 | the unshift and the food-or-pop branch leave the moved state, and report whether food was eaten |
| Game.GameState.CollectStep | script.js:431-442 | the method leaves the state the ruby branch describes |
| Game.GameState.ExpireStep | script.js:443-448 | the method leaves the state the timers describe |
| Game.GameState.AfterMoveStep | script.js:430-448 | the ruby check and timers, reporting whether the ruby was collected |
| Game.GameState.SurviveStep | script.js:403-448 | the rest of a surviving tick, with the eat sounds it plays |
| Game.GameState.RunningTick | script.js:379-448 | a running tick: the state and sounds of the direction commit and then the collision or the move |
| Game.GameState.Update | script.js:375-450 | update leaves exactly the state and the sounds the tick describes, and keeps the invariant |

## Left out

- Drawing (`draw`, the rules overlay and its scroll offset, the mute indicator): rendering only.
- Audio (`initAudio`, `startBGM`, `stopBGM`, the sound generators, the `m` mute key): the tick's sounds are the `Turned`, `Ate` and `Died` events.
- `generateAssets`: it builds images and leaves the game state alone.
- `localStorage`: the stored high score is the constructor's parameter, and writing it back is not modelled. The stored value is taken to be a number.
- The `requestAnimationFrame` loop that calls `update` every `currentSpeed` ms: scheduling is outside the model. `currentSpeed` is kept as a value.
- Keyboard decoding: the model takes "space" and "arrow with direction d". It assumes the rules overlay is closed, so the space bar always starts the first session (with the overlay open the script ignores it).
- Probabilities (the 30 % rolls, uniform cells): each random result is an arbitrary input value.
- PlaceFood: the script retries without bound until it finds a free cell. The model tries a finite sequence of draws. When none is free, the food is the last draw and `placed` is false. A full board, where the script would never return, is not modelled.
- The clock: `Date.now()` is read several times in one call of update or placeFood; the model uses a single `now` per call.
- The board size: `TILE_COUNT` is fixed at 20. The script derives it from the canvas width in the page's HTML, which is not part of this model.
- Game.GameState.PlaceFood and Game.GameState.GenerateObstacles: the food candidate and the obstacle list are built in locals and stored in the fields when the loop ends. The checks inside the loops read only other fields, so the final state is the same as the script's.
- Game.GameState.Update, Game.GameState.StartGame, Game.GameState.HandleSpace and Game.GameState.HandleArrow: they require the class invariant `Valid()`, which the constructor establishes and these four keep. The step methods they call carry no such promise of their own.
