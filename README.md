# Robo-swimmer simulation core in Dafny

This project models the simulation core of `game.py` in the robo-swimmer game (pygame).

A player sprite sinks under gravity. It swims up when the space key is pressed, and the window edges push it back. Obstacles enter at x = 1200 and move 5 pixels left per tick. Each obstacle is a top block and a bottom block, with a 170-pixel gap between them that a random offset moves up or down. Obstacles that leave the screen are removed from the queue and counted as passed. The filter tests the right edge, `x + 80 > 9`, so a new obstacle is queued for 254 ticks and leaves on its 255th, at x = -75. The game ends when an obstacle overlaps the player. A fixed-timestep loop runs one tick for every 16 ms of accumulated wall-clock lag. At the end the score is reported, and a fitness is computed from the distance travelled and the position of the next obstacle.

Modules:

- `Rects` (rects.dfy): the two pygame behaviours the game relies on, stated as definitions.
  - A float coordinate becomes an integer by truncation.
  - `Rect.colliderect` is strict overlap of two rectangles of positive size.
- `GameUtil` (gameutil.dfy): `GameState` and the fixed numbers.
  - One tick is 16 ms, counted as 16000 µs.
  - The window height and gravity.
- `Players` (players.dfy): the player as a value (`PlayerState`, `Stepped`, `Swum`) and the `Player` class that updates in place.
  - `y` moves in steps of 8/3, so it is kept exactly as a number of thirds.
- `Obstacles` (obstacles.dfy): the obstacle's geometry, its motion and its collision test.
  - The obstacle as a value (`ObstacleState`).
  - The `Obstacle` class, whose `x` changes in place.
- `ObstacleQueue` (queue.dfy): the on-screen filter of `get_on_screen_obstacles`.
  - On values, and on the shared obstacle objects the game queues.
  - Its properties: idempotent, keeps a sorted queue sorted, drops a prefix of a sorted queue.
- `Sessions` (session.dfy): the whole game as a value (`Session`) and what each operation does to it.
  - Operations: `Tick`, `ApplyEvents`, `FrameStep`, `RunFrames`, `Fitness`, `ClosestAhead`.
  - All game-level properties are proved here.
- `Games` (game.dfy): the `Game` class.
  - Its fields are those of the source.
  - The queue is a `seq<Obstacle>` that the methods reassign, while the obstacles move in place.
  - The public operations (`Update`, `AddObstacle`, `ProcessInput`, `CalculateFitness`, `RunTicks`, `RunFrame`, `Start`) are proved to change or read `Model()` exactly as the matching `Sessions` definition says (`Tick`, `AddObstacleTo`, `ApplyEvents`, `Fitness`, `TickN`, `FrameStep`, `RunFrames`).
  - The steps of the loop of `update` (`UpdateObstacles`, `UpdateOne`, `MoveAndTest`, `RefilterQueue`) and `get_on_screen_obstacles` work part-way through a tick. Their contracts speak of the queue objects and the loop's progress, not of `Model()`.
  - `InitGame` only sets the state, and `GetScore` relates the score to the obstacles added so far.

## Model

| member | source | states |
|---|---|---|
| Rects.ColliderectIffSharedPixel | game.py:82-83 | two rectangles collide exactly when some pixel lies in both |
| Rects.ColliderectSymmetric | game.py:82-83 | collision does not depend on which rectangle is asked |
| Rects.IntOfThirds | game.py:132-137 | building a `Rect` from a position kept in thirds truncates toward zero: the result is the integer part of `t/3` on both signs |
| Obstacles.TopHeight | game.py:92-96 | the top block is `320 - 85 + offset` high, so between 135 and 335 for every offset |
| Obstacles.BottomBlock | game.py:68-72 | the bottom block starts exactly 170 pixels below the end of the top block, in the same 80-pixel-wide column |
| Obstacles.BlocksNeverOverlap | game.py:68-97 | for every offset the blocks are 170 apart and share no pixel |
| Obstacles.BlocksInsideSurface | game.py:90-107 | both blocks lie inside the 80 x 1200 surface drawn at the obstacle's position |
| Obstacles.CollidesIffSharedPixel | game.py:74-88 | a hitbox collides with the obstacle iff it shares a pixel with the top or the bottom block |
| Obstacles.MovedNShifts | game.py:64-66 | after k updates the obstacle has moved exactly 5k left and nothing else changed |
| Obstacles.Lifetime | game.py:55-66 | a new obstacle is at `1200 - 5k` after k ticks; with the filter's test `x + 80 > 9` it is on screen iff k <= 254, and at tick 255 it is at x = -75 |
| Obstacles.Obstacle.constructor | game.py:55-62 | a new obstacle is at (1200, 0) with the given offset |
| Obstacles.Obstacle.Update | game.py:64-66 | `update` decreases x by exactly 5 and changes nothing else |
| Obstacles.Obstacle.GetHitbox | game.py:68-72 | the hitbox is the pair (top block, bottom block) at the current position |
| Obstacles.Obstacle.DetectCollision | game.py:74-88 | true iff the player's hitbox overlaps the top block or the bottom block |
| Players.Stepped | game.py:124-137 | `update` never changes the player's x |
| Players.StepInsideWindow | game.py:124-137 | inside the window a tick moves y by `-v/2 + 8/3` and takes 2 off a positive velocity |
| Players.StepFromRest | game.py:132-137 | at rest inside the window a tick only sinks the player by 8/3 |
| Players.SwimThenStep | game.py:120-137 | `swim` then `update` moves y by `-15 + 8/3` and leaves the velocity at 28 |
| Players.StepBelowFloor | game.py:126-127 | below the floor the player is put back at 570 before the motion, the velocity is kept, and the sprite ends at most 2 pixels below the window |
| Players.StepAboveCeiling | game.py:128-130 | above the ceiling the player is put at 0 and stopped, and ends the tick at y = 8/3, inside the window |
| Players.VelocityDecays | game.py:134-135 | without input, after k ticks the velocity is at most max(v - 2k, 0); it can drop sooner, because the ceiling clamp zeroes it |
| Players.ImpulseSpent | game.py:120-135 | a swim impulse is used up after 15 ticks |
| Players.Player.GetHitbox | game.py:39-41 | the hitbox is the 70 x 70 sprite rectangle at the truncated position |
| Players.Player.constructor | game.py:113-118 | a new player is at (250, 200) at rest |
| Players.Player.Swim | game.py:120-122 | `swim` sets the upward velocity to 30 and changes nothing else |
| Players.Player.Update | game.py:124-137 | `update` does what `Stepped` defines: the floor clamp first, the ceiling clamp otherwise, then rise by v/2, decay, and sink by 8/3; the velocity stays in {0, 2, ..., 30} |
| ObstacleQueue.OnScreenObstacles | game.py:239-246 | the filter never grows the queue |
| ObstacleQueue.OnScreenMembers | game.py:242-243 | the filter keeps exactly the obstacles with `x + 80 > 9` |
| ObstacleQueue.OnScreenAppend | game.py:242-243 | filtering distributes over concatenation |
| ObstacleQueue.OnScreenKeepsAll | game.py:242-243 | a queue entirely on screen passes unchanged |
| ObstacleQueue.OnScreenIdempotent | game.py:239-246 | filtering twice is filtering once, and the second pass counts nothing as passed |
| ObstacleQueue.OnScreenKeepsSorted | game.py:242-243 | a queue sorted by x is still sorted after the filter |
| ObstacleQueue.OnScreenDropsPrefix | game.py:239-246 | on a sorted queue the filter removes a prefix: the oldest obstacles leave first |
| ObstacleQueue.MovedAllKeepsSorted | game.py:179-180 | moving every obstacle by 5 keeps the queue sorted |
| ObstacleQueue.OnScreenObjs | game.py:242-243 | the filter on the obstacle objects never grows the queue |
| ObstacleQueue.OnScreenObjsUnchanged | game.py:242-243 | the filter on objects depends only on their x positions |
| ObstacleQueue.OnScreenObjsAppend | game.py:242-243 | the filter on objects distributes over concatenation |
| ObstacleQueue.OnScreenObjsIsKept | game.py:242-243 | while the objects hold the values `vs`, the filter on objects keeps exactly the objects whose value is on screen |
| ObstacleQueue.KeptHold | game.py:242-243 | the objects kept hold exactly the values the filter on values keeps |
| ObstacleQueue.KeptDistinct | game.py:242-243 | the filter never repeats an object |
| ObstacleQueue.RefilterAfterMove | game.py:179-185 | positions only decrease, so refiltering what an earlier filter kept equals filtering the whole queue now |
| Sessions.CollidesBeforeStep | game.py:179-183 | testing one more obstacle ORs its collision into the result so far |
| Sessions.AddObstacleKeepsInv | game.py:202-204 | adding an obstacle keeps the queue on screen and sorted, and grows it by one |
| Sessions.TickKeepsInv | game.py:174-185 | a tick keeps every queued obstacle on screen and the queue sorted |
| Sessions.TickCounts | game.py:174-185 | a tick adds 1 to the distance; the new queue is the moved queue less a prefix of length `d`; `obstacles_passed` grows by that same `d`; so passed + queued is conserved |
| Sessions.TickState | game.py:174-185 | a tick sets `OVER` iff some obstacle, after its move, overlaps the moved player; otherwise the state is unchanged |
| Sessions.RefilterIdempotent | game.py:239-246 | refiltering a just-filtered game changes neither the queue nor the counter |
| Sessions.TicksIgnoreState | game.py:286-288 | the tick loop does not look at the state: `OVER` stays `OVER`, and every tick still adds 1 to the distance |
| Sessions.TickNKeepsInv | game.py:174-185 | after any number of ticks the queue is on screen and sorted, `obstacles_passed` has not decreased, and passed + queued is conserved |
| Sessions.LoneObstacleStays | game.py:174-185 | a lone obstacle is still queued after 254 ticks, at `1200 - 5k`, and nothing is counted |
| Sessions.LoneObstacleLeaves | game.py:174-185 | on the 255th tick it leaves the queue and `obstacles_passed` grows by exactly 1 |
| Sessions.ClosestAhead | game.py:206-225 | none iff no obstacle centre is right of the player's; otherwise the closest one ahead, first among equals |
| Sessions.NextAsWrittenFinds | game.py:211-225 | the loop as written returns none iff nothing is ahead; what it returns is ahead; `closest_pos` is the first position ahead |
| Sessions.FirstAheadChosen | game.py:215-223 | on a sorted queue the loop keeps the first obstacle ahead |
| Sessions.NextAsWrittenOnSorted | game.py:206-225 | on a sorted queue the loop as written returns the closest obstacle ahead |
| Sessions.NextAsWrittenMissesClosest | game.py:218-223 | on an unsorted queue with centres 500, 300, 400 and the player's centre at 200, the loop returns index 2 although index 1 is the closest ahead |
| Sessions.Abs | game.py:267 | `abs` returns n or -n, never negative |
| Sessions.DistanceTo | game.py:227-231 | the distance is `x + 40 - (player x + 35)`; it is positive iff the obstacle's centre is right of the player's |
| Sessions.HeightTo | game.py:233-237 | the height plus the player's centre y is the middle of the gap: half a gap above the bottom block, i.e. `y + 320 + offset` |
| Sessions.Fitness | game.py:257-269 | none iff no obstacle is ahead, which is where the source fails; otherwise the fitness is below the distance travelled |
| Sessions.ApplyEventsKeepsInv | game.py:156-172 | input keeps the invariant; it never touches the state, the counters or the player's position; the queue only grows at its tail |
| Sessions.FrameStep | game.py:278-290 | one pass reports a quit iff the input does; otherwise the lag left is below one tick and is what remains after whole ticks are taken from the accumulated lag |
| Games.Game.constructor | game.py:143-154 | a new game is `NOT_STARTED`, with the initial player, an empty queue and zero counters |
| Games.Game.InitGame | game.py:252-255 | the state becomes `RUNNING` and nothing else changes |
| Games.Game.GetScore | game.py:248-250 | in a valid game the score plus the queue length is the number of obstacles ever added: every added obstacle is either queued or counted as passed |
| Games.Game.AddObstacle | game.py:202-204 | a fresh obstacle at (1200, 0) is appended at the tail; the game stays valid |
| Games.Game.GetOnScreenObstacles | game.py:239-246 | returns the queued objects still on screen, in order, and adds the number left out to `obstacles_passed`; the caller assigns the result to the queue |
| Games.Game.Update | game.py:174-185 | one `update` changes the game exactly as `Tick` says, and the game stays valid |
| Games.Game.UpdateObstacles | game.py:179-185 | the loop moves every obstacle once, sets `OVER` iff one overlaps the player, and leaves the on-screen filter of the moved queue, counting the rest as passed |
| Games.Game.ScannedAll | game.py:179-185 | after the last pass the queue objects hold the filtered moved values, repeat no object, and the counter and the state are as `Tick` says |
| Games.Game.UpdateOne | game.py:179-185 | one pass keeps the loop's invariant: one more obstacle moved and tested, the queue refiltered |
| Games.Game.MoveAndTest | game.py:180-183 | the obstacle at index i moves by 5, and the state becomes `OVER` iff one of the first i+1 moved obstacles overlaps the player |
| Games.Game.RefilterQueue | game.py:185 | reassigning the queue to its filter mid-loop gives the filter of the whole queue the loop runs over |
| Games.Game.GetNextObstacle | game.py:206-225 | returns null iff no obstacle is ahead of the player, and otherwise the closest obstacle ahead |
| Games.Game.CalculateFitness | game.py:257-269 | the result is `Fitness` of the game: distance travelled - (distance + abs(height)) to the next obstacle, or none without one |
| Games.Game.ProcessInput | game.py:156-172 | the events are handled in order as `ApplyEvents` says; a quit event or the `q` key stops at once |
| Games.Game.RunTicks | game.py:286-288 | the inner loop runs `update` exactly `lag / 16000` times, whatever the state, and leaves `lag mod 16000` |
| Games.Game.RunFrame | game.py:279-288 | one pass of the main loop changes the game and the lag exactly as `FrameStep` says |
| Games.Game.Start | game.py:271-293 | starting sets `RUNNING`, then runs frame after frame as `RunFrames` says; when the state leaves `RUNNING` it reports the score and the fitness |

## Left out

- Rendering (`render`, surfaces, colours, `display.flip`) is not modelled. Drawing does not affect the simulation. The surface sizes that the filter and the hitboxes read are modelled.
- Image loading is not modelled. `assets/player.png` is not part of this model. The player sprite is assumed to be 70 x 70, because the floor clamp puts its top at 570 = 640 - 70. The bound of `Players.StepBelowFloor` (the sprite ends at most 2 pixels below the window) rests on that 70-pixel height.
- `randint(-100, 100)` is not modelled. The offset is an input of type `Offset` (-100..100), carried by the spawn events and the `o` key event.
- `time()` and `pygame.time.set_timer` are not modelled. The main loop takes a sequence of frames, each with its elapsed time in microseconds and the events polled in it. Spawn-timer firings arrive as `ObstacleSpawn` events.
- `exit()` is not modelled as ending the process. `ProcessInput` returns `quit = true`, and `Start` returns `Exited`.
- Floating point is not modelled.
  - The player's y is kept in exact thirds. `distance_traveled` is kept as an integer, and so is the lag, in microseconds.
  - Rounding of `y -= v/2; y += 8/3` and of `lag -= 0.016` is not modelled, so a float lag that rounds just below 0.016 is not captured.
- The two `print` calls are not modelled. `Start` returns the score and the fitness instead.
- The `GameObject` base class is folded into `Obstacle` and `Player`. `get_position` and `get_size` are inlined. `GameObject.detect_collision` is overridden by `Obstacle` and is not used elsewhere.
- The `Player.game` back-reference is not modelled. The player reads the window height (640) and gravity (8) as constants, which they always are.
- `Obstacle.screen_height` is not a field. It is always the window height, 640.
- `Games.Game.Start` observes the loop only over the frames it is given. A game still running when they run out returns `StillRunning`. The source would keep polling.
- `Sessions.Fitness` and `Games.Game.CalculateFitness`: with no obstacle ahead the source raises on `None`. That is the result `None` here.
- The `PAUSED` state is declared but never entered by the source, and it is not entered here either.

## Findings

| source | as written | input that shows it | evidently intended | confidence | as-written member | corrected member |
|---|---|---|---|---|---|---|
| game.py:222-223 | a later obstacle that is closer replaces `closest_obstacle`, but `closest_pos` keeps the first position ahead | obstacles whose top-block centres are 500, 300, 400 from front to back, and a player centre of 200: the result is the obstacle at 400, although the one at 300 is closer | `closest_pos` is updated together with `closest_obstacle`, so the closest obstacle ahead is returned | not executed; the game's own queue is always sorted by x, where both agree (`Sessions.NextAsWrittenOnSorted`) | Sessions.NextAsWrittenMissesClosest | Sessions.ClosestAhead |
