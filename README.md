# Snake grid engine in Dafny

A Dafny model of the grid simulation engine of the `snek` game
(`src/main.cpp`). The engine has these parts:

- the integer helpers: the non-negative `mod`, `Point` vector arithmetic, and
  the `Direction` headings with their unit vectors;
- the `State<a, b>` engine. It owns an `a`×`b` grid of cells (EMPTY, WALL or
  FRUIT), the snake's segments (head first), the heading and the arena layout;
- the rule in the game loop that refuses a heading which would turn the head
  back onto the snake's neck.

Modules, one per component:

- `Geometry` (`geometry.dfy`) holds the C++ truncating remainder `CRem` and,
  on top of it, `Mod`. `Mod` is proved equal to Dafny's Euclidean `%` for a
  positive divisor. The module also has `Point` with its operators, the
  wrapping `ModPoint`, and `Direction` with its enumerator codes and unit
  vectors.
- `Snake` (`snake.dfy`) holds pure rules over the list of segments:
  - `FindIndex` (the `std::find` behind `is_player`);
  - `NextHead` (the wrapped move target);
  - `Shifted` (the body after a successful move);
  - `GrowthTail` (the segment appended on eating);
  - `TurnsIntoNeck` and `NextHeading` (the heading-acceptance rule).
- `Layouts` (`layouts.dfy`) holds the cell kinds, the three layouts, and
  `LayoutCell`. `LayoutCell` gives the contents of every cell right after
  `reset`, in closed form.
- `Engine` (`engine.dfy`) holds `class State`:
  - the grid is a `const array2<Cell>`, written in place;
  - the segments are a `seq<Point>` field that the methods reassign;
  - `dir` and `layout` are fields.

  Its methods follow the C++ loops: the shifting loop of `update_player_head`,
  the rejection-sampling loop of `make_rand_fruit`/`make_rand_wall`, and the
  clear-then-wall loops of `reset`. Each method is specified against the
  functions of `Snake` and `Layouts`.

Behaviour of the code that the model keeps as written:

- The tail that `player_fruit_collision` appends is not wrapped onto the grid.
  A one-segment snake that has just crossed the left edge heading right grows
  at x = -1 (`GrowthTailMayLeaveGrid`). The off-grid segment lives until the
  next successful move drops it. The grid is never indexed with it. Wrapped
  onto the grid, it is the cell behind the head, or one unit step behind the
  last segment (`GrowthTailWrapped`). For this reason the object invariant
  constrains only the head to the grid.
- The heading check in the game loop compares the wrapped target of the
  requested move with the unwrapped second segment. So it refuses a reversal
  only when that segment is on the grid (`ReversalRefused`). Right after the
  growth above, the segments are (0, 10) and (-1, 10) on a 20×20 grid. A
  request to turn left is then accepted: its target (19, 10) holds no segment,
  and the snake moves back through its own neck (`OffGridNeckNotRefused`).
- Growth does not keep the segments on distinct cells. On a 5×5 grid the body
  (2, 2), (2, 1), (2, 0), (1, 0), (1, 1), (0, 1) moves left to (1, 2) without a
  collision (`OverlapExampleMove`). If (1, 2) held fruit, the appended tail
  (1, 1) + ((1, 1) - (1, 0)) is (1, 2), the head's own cell
  (`GrowthMayOverlapHead`). The overlap involves only the last segment, so the
  next successful move removes it (`ShiftKeepsDistinct`).
- Under WALLED_GARDEN an edge cell at index `i` of an edge of length `n` is a
  wall exactly when `i < n / 3` or `i > n * 2 / 3` (integer division). So the
  doorway is indices `n / 3` through `n * 2 / 3`, both included. When `n` is a
  multiple of 3 the far walled stretch is one cell shorter than the near one.
  On a 3×3 grid the corner opposite the origin stays open
  (`GardenFarCornerOpenOnThree`).
- The move in `update_player_head` collides with every current segment,
  including the tail, which the same move would vacate.
- `player_fruit_collision` runs after a collided move too. The head has not
  moved then.

## Model

| member | source | states |
|---|---|---|
| `Geometry.CRem` | src/main.cpp:29 | C++ `%`: the remainder has the sign of the dividend and is smaller in magnitude than the divisor |
| `Geometry.CRemCongruent` | src/main.cpp:29 | the C++ remainder is congruent to its dividend modulo the divisor |
| `Geometry.Mod` | src/main.cpp:27-30 | `mod(a, b)` lies in [0, b) for b > 0 and in (b, 0] for b < 0, and is congruent to `a` modulo `b` |
| `Geometry.ModIsEuclidean` | src/main.cpp:27-30 | for b > 0, `mod(a, b)` equals the Euclidean remainder `a % b` |
| `Geometry.ModInRange` | src/main.cpp:27-30 | `mod` leaves a value already in [0, b) unchanged |
| `Geometry.ModAddCongruent` | src/main.cpp:27-30 | wrapping, adding an offset and wrapping again equals adding and wrapping once |
| `Geometry.Add` | src/main.cpp:56-59 | `p + q`: subtracting either summand from the sum, coordinate by coordinate, gives back the other |
| `Geometry.Sub` | src/main.cpp:61-64 | `p - q` is the vector that, added to `q`, reaches `p` |
| `Geometry.Mul` | src/main.cpp:66-69 | `p * q` component-wise: by a vector with equal components it is the scalar product, so `p * Point{1, 1}` is `p` |
| `Geometry.Scale` | src/main.cpp:76-79 | `p * m`: by 1 it is `p`, and by -1 it is the vector that cancels `p` under `+` |
| `Geometry.ModPoint` | src/main.cpp:71-74 | `p % Point{a, b}` with positive sides is a cell of the a×b grid, in the same residue class as `p` on both axes |
| `Geometry.ModPointFixesGrid` | src/main.cpp:71-74 | `p % Point{a, b}` leaves a cell already on the a×b grid where it is |
| `Geometry.ModPointAddCongruent` | src/main.cpp:71-74 | a point wrapped before a step wraps to the same cell as the unwrapped point after the step |
| `Geometry.Unit` | src/main.cpp:87-104 | each heading's vector has length 1 (one coordinate ±1, the other 0) |
| `Geometry.Code` | src/main.cpp:39-45 | the enumerator value is positive for the headings towards the origin (UP, LEFT), and has magnitude 1 for the vertical headings and 2 for the horizontal ones |
| `Geometry.NegatedCodesAreOpposite` | src/main.cpp:39-45 | two headings have negated enumerator values exactly when their unit vectors are negations of each other, which is exactly when they are opposite |
| `Geometry.DirectionsDistinct` | src/main.cpp:87-104 | distinct headings have distinct codes and distinct unit vectors |
| `Snake.FindIndex` | src/main.cpp:131-132 | `std::find` returns the first index holding the point, or the end exactly when the point is absent |
| `Engine.State.IsPlayer` | src/main.cpp:129-133 | `is_player(x, y)` holds exactly when some segment is at (x, y) |
| `Snake.NextHead` | src/main.cpp:213 | the head's target `(head + Point{dir}) % Point{a, b}` is always on the grid and congruent to `head + Point{dir}` |
| `Snake.NextHeadInterior` | src/main.cpp:213 | away from the edges the target is the plain step `head + Point{dir}` |
| `Snake.NextHeadWrapsAtEdges` | src/main.cpp:213 | moving off any of the four edges re-enters at the opposite edge |
| `Snake.StepBackReturns` | src/main.cpp:213 | from the target of a move along `d`, a move along the opposite heading returns to the starting cell |
| `Snake.Shifted` | src/main.cpp:219-226 | after a move the length is unchanged, the head is the new cell, and segment i ≥ 1 is the old segment i - 1 |
| `Snake.ShiftKeepsDistinct` | src/main.cpp:215-226 | if all segments but the last are on distinct cells and the new head is on none of them, the shifted segments are on distinct cells |
| `Snake.OverlapExampleMove` | src/main.cpp:213-226 | on a 5×5 grid the distinct body (2,2), (2,1), (2,0), (1,0), (1,1), (0,1) moves left to (1,2) without a collision |
| `Snake.GrowthTail` | src/main.cpp:261-271 | a one-segment snake grows at `head - Point{dir}`, one step along the heading behind the head; a longer one grows at `last + (last - second_last)`, continuing the vector between its last two segments |
| `Snake.GrowthTailWrapped` | src/main.cpp:261-271 | wrapped onto the grid, the appended tail is the cell behind the head (one segment) or one unit step behind the last segment (more) |
| `Snake.GrowthTailMayLeaveGrid` | src/main.cpp:263 | the appended tail is not wrapped: a one-segment snake at x = 0 heading right grows at x = -1, off the grid |
| `Snake.GrowthMayOverlapHead` | src/main.cpp:267-272 | after the move of `OverlapExampleMove`, the appended tail (1,1) + ((1,1) - (1,0)) is (1,2), the cell of the head |
| `Snake.TurnsIntoNeck` | src/main.cpp:458-460 | a request is refused only for a snake of more than one segment whose second segment is on the grid |
| `Snake.NextHeading` | src/main.cpp:458-461 | the heading becomes either the request or stays the current one; it differs from the request exactly when the request is refused and differs from the current heading; a one-segment snake takes every request, its reverse included |
| `Snake.NextHeadingAvoidsNeck` | src/main.cpp:458-461 | the heading is never changed to one whose move lands on the second segment |
| `Snake.ReversalRefused` | src/main.cpp:458-461 | when the neck is on the grid and the head reached its cell from the neck by a step along `d`, turning to the opposite of `d` is refused and the heading is kept |
| `Snake.OffGridNeckNotRefused` | src/main.cpp:458-461 | with segments (0,10) and (-1,10) on a 20×20 grid, turning left is accepted: its target (19,10) is neither the neck nor any segment |
| `Layouts.EdgeWall` | src/main.cpp:286-318 | UNLIMITED walls no edge index and WALLS every one; WALLED_GARDEN always leaves the middle index `n / 2` open, and walls index 0 once the edge is at least 3 long |
| `Layouts.LayoutCell` | src/main.cpp:281-319 | `reset` places no fruit, and walls only cells on the border, whatever the layout |
| `Layouts.UnlimitedIsOpen` | src/main.cpp:281-285 | under UNLIMITED every cell is empty |
| `Layouts.WallsIsBorder` | src/main.cpp:286-300 | under WALLS a cell is a wall exactly when x ∈ {0, a-1} or y ∈ {0, b-1}, and empty otherwise |
| `Layouts.GardenEdges` | src/main.cpp:301-319 | under WALLED_GARDEN a non-corner edge cell is a wall exactly when its index along the edge is `< n/3` or `> n*2/3` |
| `Layouts.GardenDoorways` | src/main.cpp:301-319 | on a grid at least 3×3 the middle cell of each edge is open and the origin corner is walled; the other corners are walled from 4×4 on |
| `Layouts.GardenFarCornerOpenOnThree` | src/main.cpp:301-319 | on a 3×3 WALLED_GARDEN grid the corner (2, 2) stays empty while (0, 0) is a wall |
| `Engine.WallsMakeWrapUnreachable` | src/main.cpp:286-299 | under WALLS a move from a cell off the border never wraps, and one that hits no wall stays off the border |
| `Engine.State.constructor` | src/main.cpp:381-382 | a new state has been reset: one segment at (a/2, b/2), heading LEFT, grid as the layout prescribes |
| `Engine.State.UpdatePlayerHead` | src/main.cpp:209-228 | returns true and changes nothing when the wrapped target holds a segment (the tail included) or a wall; otherwise returns false, and the segments become the shifted ones; the grid is never written |
| `Engine.State.PlayerFruitCollision` | src/main.cpp:254-274 | when the head is on fruit that cell becomes empty and exactly the growth tail is appended after the unchanged segments; otherwise nothing changes; no other cell changes |
| `Engine.State.Eligible` | src/main.cpp:234 | a drawn cell is accepted exactly when it does not hold the blocking kind (WALL here, FRUIT in the same test at line 246) and no segment is on it |
| `Engine.State.Sample` | src/main.cpp:232-238 | the rejection loop takes the first drawn cell (draws reduced modulo a and b) that does not hold the blocking kind and is not under the snake |
| `Engine.State.MakeRandFruit` | src/main.cpp:230-240 | exactly the first eligible drawn cell becomes fruit; it was not a wall and not under the snake; every other cell is unchanged |
| `Engine.State.MakeRandWall` | src/main.cpp:242-252 | exactly the first eligible drawn cell becomes a wall; it was not fruit and not under the snake; every other cell is unchanged |
| `Engine.State.WallColumn` | src/main.cpp:286-292 | a border-column loop of `reset` walls exactly the cells of that column whose index the layout walls, and leaves every other cell alone |
| `Engine.State.WallRow` | src/main.cpp:293-298 | a border-row loop of `reset` walls exactly the cells of that row whose index the layout walls, and leaves every other cell alone |
| `Engine.State.Reset` | src/main.cpp:276-321 | the snake becomes the single point (a/2, b/2) heading LEFT, and every cell becomes `LayoutCell` of the layout (empty, border walls, or border walls with doorways) |
| `Engine.State.Steer` | src/main.cpp:458-461 | the heading becomes the requested one unless the snake has more than one segment and the move would land on its second segment; a one-segment snake always takes it |
| `Engine.State.Advance` | src/main.cpp:458-467 | one movement tick: the heading settles by the acceptance rule, the move collides exactly as `UpdatePlayerHead` says, the snake grows exactly when the head's cell after the move held fruit, that cell is emptied, and no other cell changes |

## Left out

- Rendering (`draw_grid`, `rescale`, the `square_size` constants) and all HUD text in `main`: raylib drawing and `double` pixel arithmetic.
- `Timer::triggered` and `make_delta`: they depend on `std::chrono::steady_clock` and `double` arithmetic.
- The `main` event loop, key polling, window set-up, pausing and the game-over flag. Of `main`, only the heading-acceptance check and the order of the movement tick are modelled (`Steer`, `Advance`).
- `Point::operator==` is Dafny's equality on the `Point` datatype.
- `srand`/`rand`: the random draws are a parameter `draws`, the successive pairs of `rand()` results.
- Engine.State.Sample: the source loops forever when no drawn cell is eligible (a saturated grid). The model requires that some draw is eligible instead.
- Engine.State.MakeRandFruit: returns the index of the draw taken, which the source does not report.
- Engine.State.MakeRandWall: returns the index of the draw taken, which the source does not report.
- `wall_layout` (src/main.cpp:359-375): it is never called and repeats the WALLS branch of `reset`, which `Reset` models.
- Integer widths: `Point` coordinates (C++ `int`) and `mod`'s `long` operands are unbounded integers. Overflow needs coordinates near 2^31, which grid cells and their neighbours never reach.
- The layout before the first `reset`: `main` declares `State<X, Y> state;` without initialising `layout`. The constructor takes the layout as a parameter instead.
