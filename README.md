# Game of Life on a torus: a verified model

This project models the simulation kernel and the control state of a browser
Game of Life (`js/index.js`). The kernel has two parts. The first is the Life
rule for one cell. The second is the count of live neighbours on a torus of 36
rows by 64 columns, where rows and columns wrap independently. The grid builder
uses both to turn a grid into a fresh next-generation grid and a live-cell
count. It stops the game when a generation has no live cell. The control state
consists of the current grid, the playing flag, the stored speed, the speed
slider and the repeating timer. The event handlers update it: play/pause,
reset, shuffle, the speed slider and a click on a cell.

Modules:

- `Life` (life.dfy): grids as sequences of rows of 0/1 cells. It holds the rule
  (`CellValue`) and the neighbour count in the program's own shape (`UpRow`,
  `DownRow`, `LeftField`, `RightField`, `AliveNeighbors`). Beside it is an
  independent reference: the sum over the eight offsets, both coordinates
  reduced modulo the torus size (`ToroidalNeighbors`). The module also has the
  next generation as a function, the population of a grid, the all-dead grid
  and the cell toggle.
- `GridUpdate` (grid_update.dfy): the nested loops of the grid builder. One
  form builds the next generation and its count; the default form builds the
  all-dead grid.
- `Timers` (timers.dfy): the repeating timers the program can observe. This is
  a table of live interval handles with their periods, plus the handle held in
  the program's `interval` variable. `setInterval` and `clearInterval` act on
  that table.
- `Controls` (session.dfy): the module-level state as a `Session` class, with
  the event handlers as methods. It also holds two scenarios for the finding
  below.
- `Patterns` (patterns.dfy): a corner that wraps on both axes, a lone live cell
  (it dies), the block still life and the blinker. The block and the blinker
  are drawn at any anchor on any torus large enough for them, which includes the
  36 x 64 table. A cell is located by its offset from the anchor, and one
  generation on the torus is reduced to one generation in the unbounded plane.

The kernel takes the torus size R x C as parameters and requires the grid to
have exactly that shape. The program wraps with its constants `TABLE_ROWS` and
`TABLE_COLS` no matter how large the grid is, so it is correct only on its own
36 x 64 grids. That is the only shape `Session` uses.

## Model

| member | source | states |
|---|---|---|
| `Life.CellValue` | js/index.js:147-156 | The result is 0 or 1. It is 1 exactly when the cell is alive with 2 or 3 live neighbours, or dead with exactly 3. |
| `Life.LeftField` | js/index.js:136-138 | No contract of its own: reads the cell left of a column, column -1 wrapping to C - 1. `Life.SideFieldsWrap` states its value. |
| `Life.RightField` | js/index.js:140-142 | No contract of its own: reads the cell right of a column, column C wrapping to 0. `Life.SideFieldsWrap` states its value. |
| `Life.UpRow` | js/index.js:108-120 | No contract of its own: the three cells of the row above, row -1 wrapping to R - 1. `Life.RowsWrap` states its value. |
| `Life.DownRow` | js/index.js:122-134 | No contract of its own: the three cells of the row below, row R wrapping to 0. `Life.RowsWrap` states its value. |
| `Life.AliveNeighbors` | js/index.js:100-106 | No contract of its own: the row above, the left and right cells and the row below, added up. `Life.AliveNeighborsIsToroidal` and `Life.AliveNeighborsRange` state its value and bounds. |
| `Life.SideFieldsWrap` | js/index.js:136-142 | For an in-range cell, the left helper at column col - 1 reads column (col - 1) mod C and the right helper at col + 1 reads column (col + 1) mod C. |
| `Life.RowsWrap` | js/index.js:108-134 | For an in-range cell, the row-above helper reads row (row - 1) mod R and the row-below helper row (row + 1) mod R, in each the columns (col - 1) mod C, col and (col + 1) mod C. |
| `Life.AliveNeighborsIsToroidal` | js/index.js:100-145 | The program's count (row above, left, right, row below, with -1 wrapping to R-1 or C-1 and R or C wrapping to 0) equals the sum over the eight offsets (dr, dc) other than (0, 0) of `grid[(r+dr) mod R][(c+dc) mod C]`. Every index the count reads is in range, corners included. |
| `Life.AliveNeighborsRange` | js/index.js:100-145 | On a 0/1 grid of shape R x C, the neighbour count lies in [0, 8]. |
| `Life.NextGeneration` | js/index.js:64-79 | The next generation has the input's R x C shape and only 0/1 cells. By definition, cell (i, j) is the rule applied to the neighbour count of (i, j) and to whether `grid[i][j]` is non-zero. |
| `Life.NextCell` | js/index.js:77-78 | No contract of its own: the rule applied to a cell's neighbour count and to whether the cell is non-zero. `GridUpdate.NextGrid` and the pattern lemmas state what it yields. |
| `Life.Population` | js/index.js:61-79 | No contract of its own: the number of non-zero cells, the value the builder's `count` accumulates. `Life.PopulationZero` and `GridUpdate.NextGrid` state its meaning. |
| `Life.Zeros` | js/index.js:81-82 | The all-dead grid has the requested shape and only 0/1 cells. |
| `Life.PopulationZero` | js/index.js:88 | A grid's live count is 0 exactly when every cell is 0, which is the extinction test of the auto-stop. |
| `Life.ZerosAreStill` | js/index.js:76-79 | The next generation of the all-dead grid is the all-dead grid. |
| `Life.Toggled` | js/index.js:28-29 | A toggle keeps the shape and changes cell (r, c) only. On a 0/1 grid the cell goes from v to 1 - v and the grid stays 0/1. |
| `Life.ToggleTwice` | js/index.js:28-29 | Toggling the same cell twice restores a 0/1 grid. |
| `GridUpdate.NextGrid` | js/index.js:60-79 | The nested loops build exactly `NextGeneration(grid)`. The input is only read. The accumulated `count` equals the number of live cells of the result. |
| `GridUpdate.BlankGrid` | js/index.js:69-82 | The default branch builds the all-dead grid of the given shape, with population 0. |
| `Timers.SetInterval` | js/index.js:175-177 | A new live timer with the given period, under a handle that was not live before. The handle is stored in the interval variable. Every timer that was live stays live. |
| `Timers.ClearInterval` | js/index.js:170 | Only the timer named by the interval variable stops. The variable keeps its stale handle. |
| `Timers.ReArmKeepsOneTimer` | js/index.js:221-224 | When no timer other than the current one is live, clear-then-set leaves exactly one live timer: the new one, at the new period. |
| `Controls.Period` | js/index.js:209-224 | For a slider value in [0, 900], the step period `GAME_SPEED - speed` lies in [100, 1000]. |
| `Controls.Session.constructor` | js/index.js:6-17 | At load time the grid is the all-dead 36 x 64 grid, the game is paused, the speed is 0 and no timer is live. |
| `Controls.Session.AutoStop` | js/index.js:88-95 | When the count is 0 while playing: paused, speed and slider 0, the interval variable's timer cleared. Otherwise the flag, the speed and the timers are unchanged. The grid is untouched. |
| `Controls.Session.Step` | js/index.js:34-36 | The grid becomes its next generation, followed by the auto-stop on an extinct result while playing. The one-timer-while-playing invariant is kept. |
| `Controls.Session.PlayPause` | js/index.js:166-178 | Corrected play/pause. Pausing clears the timer and keeps the grid. Playing steps once, keeps playing exactly when the new grid is not extinct, and only then arms a timer at `Period(speed)`. A timer is live exactly while playing. |
| `Controls.Session.PlayPauseAsWritten` | js/index.js:166-178 | The program's play/pause. It is the same as above, except that playing always arms a new timer, even after the immediate step stopped the game. The handle in `interval` is not cleared before the new timer is armed; only the auto-stop of an empty step clears it. |
| `Controls.Session.Reset` | js/index.js:185-191 | Paused, speed and slider 0, the grid all-dead 36 x 64, the interval variable's timer cleared. Under the invariant, no timer is live. |
| `Controls.Session.Shuffle` | js/index.js:197-203 | The same as reset, but with the supplied random 0/1 grid as the new grid. |
| `Controls.Session.ChangeSpeed` | js/index.js:215-225 | While paused, the slider springs back to the stored speed and nothing else changes. While playing, the speed and the slider take the new value and the timer is re-armed at `Period(v)`. The grid and the flag are unchanged. |
| `Controls.Session.ToggleCell` | js/index.js:21-32 | The grid becomes `Toggled(grid, r, c)`. The flag, the speed and the timers are unchanged. |
| `Controls.EmptyTableIsExtinct` | js/index.js:76-88 | The all-dead 36 x 64 table is its own next generation and its live count is 0, so the auto-stop fires on it. |
| `Controls.PlayOnEmptyTableAsWritten` | js/index.js:171-177 | Pressing the program's play button on the all-dead table stops at once, yet one timer stays live at period 1000 under a fresh handle. |
| `Controls.PlayOnEmptyTableCorrected` | js/index.js:171-177 | Pressing the corrected play button on the all-dead table stops at once and leaves the timer table unchanged, with no timer live. |
| `Controls.LoneCellStops` | js/index.js:60-95 | A running game whose table holds a single live cell stops after one generation: paused, speed 0, no live cell, the interval variable's timer cleared. |
| `Controls.PlayOnBlinkerAsWritten` | js/index.js:171-177 | Pressing the program's play button on the blinker keeps the game playing and arms a new timer beside every timer already live. |
| `Controls.PlayOnBlinkerCorrected` | js/index.js:171-177 | Pressing the corrected play button on the blinker keeps the game playing, and the new timer is the only one live. |
| `Controls.OrphanTimerAsWritten` | js/index.js:166-178 | Play on the empty table, draw a blinker, play, pause, all with the program's button. While playing, two timers are live; after the pause, one still is. |
| `Controls.OrphanTimerCorrected` | js/index.js:166-178 | The same presses with the corrected button: one timer while playing, none after the pause. |
| `Patterns.CornerWrapsBothAxes` | js/index.js:100-145 | On a 3 x 3 torus where only (0, 0) is live, the bottom-right corner counts 1 neighbour. |
| `Patterns.LoneCell` | js/index.js:28-29 | One click on the all-dead R x C grid gives a 0/1 torus grid whose only live cell is the clicked one. |
| `Patterns.LoneCellIsolated` | js/index.js:100-145 | On a torus at least 3 x 3, the lone live cell has no live neighbour. |
| `Patterns.LoneCellNeighbors` | js/index.js:100-145 | On a torus at least 3 x 3, every cell of the lone-cell grid has at most one live neighbour. |
| `Patterns.LoneCellDies` | js/index.js:76-88 | On a torus at least 3 x 3, the next generation of a lone live cell has population 0, so the auto-stop fires. |
| `Patterns.PlaneStep` | js/index.js:147-156 | In the unbounded plane, the rule maps the block to itself and each blinker phase to the other, on every cell. |
| `Patterns.AxisStep` | js/index.js:100-145 | On an axis long enough for the shape, a wrapped step of -1, 0 or 1 changes a cell's offset from the anchor by exactly that step whenever either side lands inside the shape's range. |
| `Patterns.PlacedNeighbor` | js/index.js:100-145 | The wrapped neighbour of a cell at a given offset is live exactly when the plane neighbour of the cell's offset belongs to the shape. |
| `Patterns.PlacedNeighbors` | js/index.js:100-145 | The program's live-neighbour count of any cell of a drawn shape equals the plane count of the cell's offset from the anchor. |
| `Patterns.PlacedStep` | js/index.js:76-78 | On a torus the shape fits, the next generation of the drawn shape is the next shape drawn at the same anchor. |
| `Patterns.AnchorIsLive` | js/index.js:28-29 | The anchor cell of a drawn shape is live. |
| `Patterns.BlockIsStill` | js/index.js:76-78 | A 2 x 2 block anchored anywhere on any torus at least 4 x 4 is unchanged by a generation. |
| `Patterns.HorizontalToVertical` | js/index.js:76-78 | On any torus at least 5 x 5, a horizontal line of three becomes the vertical line of three with the same middle cell. |
| `Patterns.VerticalToHorizontal` | js/index.js:76-78 | On any torus at least 5 x 5, the vertical line becomes the horizontal one with the same middle cell. |
| `Patterns.BlinkerHasPeriodTwo` | js/index.js:76-78 | On any torus at least 5 x 5, the blinker returns after two generations and its two phases differ. |
| `Patterns.BlinkerNeverExtinct` | js/index.js:88 | On any torus at least 5 x 5, both phases of the blinker have live cells, so the auto-stop never fires on it. |
| `Controls.BlinkerTableIsPlaced` | js/index.js:28-29 | Three clicks at (10, 10), (10, 11) and (10, 12) on the all-dead table draw the horizontal blinker with middle cell (10, 11). |
| `Controls.TableBlinkerHasPeriodTwo` | js/index.js:76-88 | On the 36 x 64 table the drawn blinker returns after two generations, its two phases differ and neither is extinct. |
| `Controls.BlinkerSurvives` | js/index.js:76-88 | The first generation of the drawn blinker on the table has live cells, so the auto-stop does not fire. |

## Left out

- DOM construction and styling: `createTable` (js/index.js:38-58), `createButton` (js/index.js:232-241), the cells' `alive` class toggles (js/index.js:31, 84), the button labels and the module bootstrap. They are presentation only.
- The random draws of the shuffle branch (js/index.js:73-75): `Math.random` is not modelled. `Session.Shuffle` takes the drawn cells as a 0/1 grid parameter.
- Scheduling: when and how often a live timer fires is not modelled. A timer is a handle in a table with its period, and `Session.Step` is the callback body, which the environment may run.
- The string-to-number conversion of the slider value (js/index.js:220). The speed is an integer, and the slider delivers a multiple of 25 in [0, 900] (js/index.js:209-211).
- Grids of another shape than the torus size. The program's wrap uses its constants, so its grids must be 36 x 64. The model requires the grid to have the R x C shape it is given and does not model the out-of-range reads another shape would cause.
- The toggle's input: a click's row and column are in range because only existing table cells are clickable (js/index.js:22-26), so `ToggleCell` requires them.
- Aliasing: grids are values. The program's in-place write `currentGrid[r][c] = ...` becomes a reassignment of the session's grid field. Nothing else in the program holds a reference to that grid, so no behaviour is lost.
- The code has one play/pause toggle, no clamp on the step period and no checks on grid dimensions or cell indices. The model follows the code and adds none of these.

## Findings

| source | as written | input that shows it | evidently intended | confidence | as-written member | corrected member |
|---|---|---|---|---|---|---|
| js/index.js:171-177 | Pressing play runs one generation and then always calls `setInterval`. It does so even when that generation has just stopped the game (js/index.js:88-95). The handle already in `interval` is not cleared first. | On the empty table, press play. The game stops at once, but a timer stays live while paused. Draw a blinker, with the three clicks falling within one period of that timer, and press play: two timers are live. Press pause: one timer stays live and keeps stepping the paused grid. | A timer should be live exactly while playing, and there should be only one. | high (not executed) | `Controls.OrphanTimerAsWritten` (with `Controls.Session.PlayPauseAsWritten`) | `Controls.OrphanTimerCorrected` (with `Controls.Session.PlayPause`, which keeps `OneTimerWhilePlaying`) |
