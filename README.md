# Snake game — a Dafny model of its simulation

This project models the simulation of a turtle-graphics snake game
(`snake_game.py`) with the drawing taken out. The snake is an ordered body of
segment positions, with index 0 as the head. It has a heading and a `moving`
flag. Each tick the body shifts follow-the-leader style and the head steps
25 units along its heading. Then three checks run:

- a wall check, which stops the snake on or beyond a wall;
- a tail check, which stops it when the head overlaps one of its own segments;
- an apple check, which moves the apple, adds a point and grows the tail by
  one segment when the head reaches the apple.

A game-over check then ends the game once the snake has stopped.

Modules, from the leaves up:

- `Collisions` (`collisions.dfy`): positions, the four headings, turtle's
  `forward`, and the two collision tests `check_collisions_2_obj` (a box
  test) and `check_collisions_2_obj_food` (a distance test, stated on squared
  distances).
- `SnakeModel` (`snake.dfy`): class `Snake`, whose fields are the body (a
  `seq` the methods reassign, as the source's list is updated in place), the
  heading and `moving`. `Move` keeps the source's descending loop and is
  proved equal to the functional `Advance`. Beside it are `Grown`,
  `Formation`, `Turned` and `Moves`, with lemmas about them.
- `AppleModel` (`apple.dfy`): class `Apple` (position and `is_eaten`), the
  spawn area of `show_up_apple` and Python's truncating `int(w/2)`.
- `GameModel` (`game.dfy`): class `MainGame` with the tick's checks as
  methods and `Tick` as one loop iteration. The value-level `TickSpec` and
  `Run` describe a tick and the `while game_is_on` loop. The lemmas on
  them include the scenario of a fresh game in the default 600×600 window
  running east into the wall.

Representation choices:

- Coordinates are integers. The wall test `x >= w/2` on floats is exactly
  `2*x >= w` on integers, and `distance < 20` is exactly `dx*dx + dy*dy < 400`.
- Headings are `East`, `North`, `West` and `South`, at turtle angles 0, 90,
  180 and 270. A new turtle faces 0, which is East.
- Pen sizes are constants: 10 for the head, turtle's default of 1 for every
  other segment, and 10 for the apple.
- The window width and height are parameters of each check, because the
  source asks the window for them on every tick.
- The random apple position is a parameter. It is required to lie in the
  spawn area only when the apple is actually reached, since
  `random.randint` is only called then.

Two details of the code that the model keeps:

- The self-collision scan runs over `range(1, len(body) - 1)`: segment 1 is
  tested and only the last segment is skipped (`HeadOnSegmentHits` holds for
  k = 1).
- `random.randint` includes both bounds, so a new apple may lie exactly on
  the edge of the margin-reduced rectangle.

## Model

| member | source | states |
|---|---|---|
| `Collisions.Angle` | snake_game.py:171-185 | every heading is a whole quarter turn in [0, 360) |
| `Collisions.Opposite` | snake_game.py:171-185 | the refused heading of each turn is the one 180 degrees away |
| `Collisions.Forward` | snake_game.py:153 | where `forward(d)` takes a turtle along each of the four headings (defines, no contract) |
| `Collisions.Overlaps` | snake_game.py:11-14 | `check_collisions_2_obj`: twice the distance along each axis is below the sum of the pen sizes (defines, no contract) |
| `Collisions.Near` | snake_game.py:17-18 | `check_collisions_2_obj_food`: the squared distance is below the square of twice the second object's pen size, which is positive (defines, no contract) |
| `Collisions.ForwardAdds` | snake_game.py:153 | two steps forward along one heading add up |
| `Collisions.ForwardThenBack` | snake_game.py:153 | a step along the opposite heading undoes a step |
| `Collisions.OverlapsSymmetric` | snake_game.py:11-14 | the box collision test is symmetric in its two objects |
| `Collisions.SamePlaceOverlaps` | snake_game.py:11-14 | objects at the same place collide exactly when their pen sizes sum to a positive number |
| `Collisions.NearInsideBox` | snake_game.py:17-18 | a food hit lies less than twice the food's pen size away along each axis |
| `SnakeModel.SegmentAt` | snake_game.py:122-126 | the head collides with pen size 10, every other segment with turtle's default 1 (defines, no contract) |
| `SnakeModel.Advance` | snake_game.py:147-154 | a move keeps the length, puts every segment i >= 1 where segment i-1 was, and steps the head 25 units along the heading |
| `SnakeModel.Formation` | snake_game.py:131-133 | adding n segments to an empty snake gives n segments at (-20k, 0) |
| `SnakeModel.Moves` | snake_game.py:147-154 | repeated moves keep the body's length |
| `SnakeModel.MovesFollowHead` | snake_game.py:147-154 | after n moves the head is n steps on, segment i <= n sits on the head's path (n-i) steps from the start, and segment i > n holds the old segment i-n |
| `SnakeModel.Turned` | snake_game.py:171-185 | the heading after a turn request: the request, unless it is the exact reverse of the current heading (defines, no contract) |
| `SnakeModel.Grown` | snake_game.py:163-169 | the body with a segment appended 20 units west of the tail (defines, no contract) |
| `SnakeModel.AddedToTail` | snake_game.py:163-169 | both branches of `add_segment_2_tail`: (x, y) for an empty body, `Grown` otherwise (defines, no contract) |
| `SnakeModel.TurnNeverReverses` | snake_game.py:171-185 | a turn never leaves the head facing back the way it came, and it is refused exactly when it asks for the reverse heading |
| `SnakeModel.GrowthAppendsWestOfTail` | snake_game.py:163-169 | growth adds one segment, keeps the earlier ones, and puts the new tail 20 units west of the old one |
| `SnakeModel.Snake.constructor` | snake_game.py:122-133 | a new snake has segments (0,0), (-20,0), (-40,0), a head of pen size 10, faces East and is moving |
| `SnakeModel.Snake.SetMoving` | snake_game.py:140-141 | sets `moving` and nothing else |
| `SnakeModel.Snake.Move` | snake_game.py:147-154 | the tail-to-head in-place loop gives `Advance` of the old body when moving, and changes nothing otherwise |
| `SnakeModel.Snake.AddSegmentToTail` | snake_game.py:156-169 | appends (x, y) to an empty body and otherwise a segment 20 units west of the tail, keeping the earlier segments |
| `SnakeModel.Snake.TurnNorth` | snake_game.py:171-173 | heading becomes North unless it is South |
| `SnakeModel.Snake.TurnSouth` | snake_game.py:175-177 | heading becomes South unless it is North |
| `SnakeModel.Snake.TurnWest` | snake_game.py:179-181 | heading becomes West unless it is East |
| `SnakeModel.Snake.TurnEast` | snake_game.py:183-185 | heading becomes East unless it is West |
| `AppleModel.TruncHalf` | snake_game.py:200-201 | `int(n/2)` is half of n truncated toward zero |
| `AppleModel.InSpawnArea` | snake_game.py:199-204 | the points `randint` can draw: [-int(w/2)+50, int(w/2)-50] by [-int(h/2)+50, int(h/2)-50], bounds included (defines, no contract) |
| `AppleModel.AppleAt` | snake_game.py:190-194 | the apple collides with pen size 10 (defines, no contract) |
| `AppleModel.SpawnMargin` | snake_game.py:199-204 | a spawn point exists only in a window at least 100 wide and high, and it keeps 50 units from every wall |
| `AppleModel.Apple.constructor` | snake_game.py:190-197 | a new apple lies in the default 150×150 spawn area and is not eaten |
| `AppleModel.Apple.ShowUp` | snake_game.py:199-206 | the apple moves to the drawn point, which lies in the spawn area of the given window |
| `AppleModel.Apple.SetIsEaten` | snake_game.py:217-218 | sets `is_eaten` and nothing else |
| `GameModel.OnOrBeyondWall` | snake_game.py:105-117 | the wall condition `x >= w/2 or x <= -w/2 or y >= h/2 or y <= -h/2`, stated on twice the coordinate (defines, no contract) |
| `GameModel.HitsTail` | snake_game.py:99-103 | the head overlaps some segment k with 1 <= k <= len-2 (defines, no contract) |
| `GameModel.ReachesApple` | snake_game.py:73-74 | the food test between the head and the apple (defines, no contract) |
| `GameModel.TickSpec` | snake_game.py:62-70 | a tick never shortens the snake |
| `GameModel.Run` | snake_game.py:62-70 | the game loop never shortens the snake |
| `GameModel.MainGame.constructor` | snake_game.py:34-41 | a new game has a fresh snake and apple, 0 points, and is on |
| `GameModel.MainGame.IncreaseGamePointCounter` | snake_game.py:96-97 | adds one point |
| `GameModel.MainGame.CheckCollisionsWithWalls` | snake_game.py:105-117 | `moving` is cleared exactly when the head is on or beyond a wall, bounds included, and is never set |
| `GameModel.MainGame.CheckCollisionsWithTail` | snake_game.py:99-103 | `moving` is cleared exactly when the head overlaps a segment from 1 to len-2, and is never set |
| `GameModel.MainGame.CheckCollisionWithApple` | snake_game.py:73-79 | on a hit the apple moves to the drawn point and is marked eaten, the score goes up by 1 and the tail grows by one segment; otherwise nothing changes |
| `GameModel.MainGame.CheckGameIsOver` | snake_game.py:81-88 | reports whether the snake has stopped, and turns the game off exactly then |
| `GameModel.MainGame.Tick` | snake_game.py:62-70 | move, wall, tail, apple and game-over checks in that order give `TickSpec` of the old state, and the score keeps counting the segments grown |
| `GameModel.TickFlags` | snake_game.py:62-70 | a tick never restarts the snake, turns the game off exactly when the snake stops, and keeps the score equal to the segments grown |
| `GameModel.StoppedSnakeStays` | snake_game.py:147-148 | a stopped snake keeps its head in place and the game is over |
| `GameModel.RunStopsWhenOver` | snake_game.py:62-70 | the loop runs no tick once the game is off, and a game still on was on at every earlier tick |
| `GameModel.HeadOnSegmentHits` | snake_game.py:99-103 | a head exactly on any segment from 1 to len-2 is a hit |
| `GameModel.LastSegmentNeverTested` | snake_game.py:99-103 | the last segment's position never affects the tail check |
| `GameModel.TrailsWestKept` | snake_game.py:147-169 | a snake heading east with its body trailing west keeps that shape through a move and a growth, and never hits its tail |
| `GameModel.EastTick` | snake_game.py:62-70 | before the wall, a tick in the default window keeps the snake running east one step further |
| `GameModel.WallTick` | snake_game.py:105-117 | the tick that takes the head to x = 300 ends the game and eats no apple |
| `GameModel.EastRunHitsWall` | snake_game.py:62-70 | a snake running east ends the game at x = 300, one tick after it was still on, with no point added by that tick |
| `GameModel.EndToEndEast` | snake_game.py:62-70 | from a fresh game in the 600×600 window with no turns, the game ends on the 12th tick with the head at x = 300, and the score is unchanged from the tick before |

## Left out

- Drawing and window set-up: `_set_game_screen_default`, `create_game_graphic`,
  `write_game_score`, the "GAME OVER" text, `screen.update` and
  `exitonclick`. They draw through a turtle library that is not part of this model.
- Key bindings (`listen`, `onkey`) and the `time.sleep` pacing of the loop.
  They are event-driven and timed. `Tick` is one loop iteration, and `Run`
  describes the loop as a value for the lemmas.
- `reset_game`, which re-runs the constructor and restarts the loop from a key
  callback. A reset game is a new `MainGame`: 0 points, on, and a fresh
  snake and apple. So `snake` and `apple` are `const` fields.
- `Snake.game_is_reset`, never called, and `Apple.hide_up_apple`, which only sleeps.
- `Apple.apple_is_eaten`, a getter that nothing calls. The flag it returns is
  the `isEaten` field.
- `Snake.set_head_coordinates` and the cached `x_cor`/`y_cor` fields. Nothing
  reads them, and they always equal the head's position.
- The randomness of `random.randint`. The drawn point is a parameter that
  must lie in the spawn area. `randint` raises an error when the range is
  empty, which is a window under 100 units; a tick in which the head then
  reaches the apple cannot be called in the model.
- Floating-point coordinates, `math.fabs`, turtle's trigonometric `forward`,
  `distance` and `sqrt`. Positions are integers. Turtle's `forward` along a
  heading reached by a turn drifts by about 1e-16 on the other axis, so at
  the exact boundary of the box test, the distance test and the wall test
  the source's outcome can differ from the integer model's (a head drifted
  to x = 3e-15 is within distance 20 of an apple exactly 20 away).
- Segments' own headings and every shape and colour setting. No collision
  test reads them.
