# Game of Life kernel

A Dafny model of the simulation kernel of a browser Game of Life (`main.js`).
The kernel has four parts:

- A bounded `cellsWide` x `cellsHigh` grid of `Cell` objects, indexed `[y][x]`, with a mutable `isAlive` flag each.
- A Moore-neighbourhood count that ignores positions off the grid. There is no wrap-around.
- A two-phase generation step. `handleCurrentCells` scans the unchanged grid and pushes onto `flipQueue` every coordinate the rule changes. `spawnNextCells` pops the queue and flips those cells. `update` runs both and increments `currGen`.
- The state resets behind the Clear button and the dimension-swap checkbox.

The project has three modules:

- `Life` (`life.dfy`) holds the rules as pure functions over a snapshot `Grid = seq<seq<bool>>`:
  - `Neighbours`, `LifeRule` and `NextState`, the synchronous Life generation;
  - `MustFlip`, the scan's kill-or-spawn test;
  - `Flips`, everything one scan queues, in the scan's row-major order;
  - `ApplyFlips`, a queue drained from its end, the way `pop` drains it.

  The lemmas about these functions carry the main result: queueing `Flips(g)` and then draining it yields exactly `NextState(g)`.
- `Simulation` (`simulation.dfy`) is the imperative program:
  - class `Cell` keeps the source's `x`, `y` and `isAlive`;
  - class `Game` keeps the module-level state of `main.js` (`cellsWide`, `cellsHigh`, `currGen`, `cellGrid`, `flipQueue`) as fields.

  `Game` has a ghost `State` kept equal to the cells' flags and a ghost `Repr`, the set of its cells. Each method is proved against the `Life` functions. `Valid()` is the invariant every operation keeps:
  - the dimensions are positive and match the grid;
  - every cell records its own coordinates;
  - every queued coordinate is on the grid;
  - `currGen >= 1`.

  `Idle()` adds that the queue is empty, which holds between any two events.
- `Scenarios` (`scenarios.dfy`) works two concrete 3 x 3 boards through one generation.

Notes on the code, which the model follows:

- The grid is always 60 x 40 or 40 x 60. Nothing checks the dimensions and nothing reports a bad one (main.js:14-15, 116-120).
- The dimension-swap handler does not clear `flipQueue` (main.js:115-125). The queue is already empty whenever an event handler runs, because `update` always drains it. `FlipDimensions` therefore requires `Idle()` and ensures the queue is still empty.
- A canvas click indexes `cellGrid[mY][mX]` without a bounds check (main.js:131).

## Model

| member | source | states |
|---|---|---|
| Life.Dead | main.js:64-72 | The all-dead grid has `h` rows of `w` cells, and every cell in it is dead. |
| Life.Neighbours | main.js:43-56 | The neighbour count of any position is at most 8. |
| Life.NeighboursLocal | main.js:43-56 | The count depends only on the eight cells around the position: two same-shaped grids that agree on those on-grid cells give the same count. |
| Life.NeighboursIgnoreSelf | main.js:49 | The cell is skipped: changing the cell itself never changes its own count. |
| Life.NoWrapAround | main.js:50-51 | Neighbours that fall off the grid are ignored, not wrapped. On a grid at least 3 wide, toggling a cell in the last column leaves the count of every first-column position unchanged. |
| Life.NextState | main.js:189-193 | One generation keeps the grid's shape. |
| Life.MustFlipIffChanges | main.js:165-177 | The scan's test (alive with at most 1 or at least 4 neighbours, or dead with exactly 3) holds exactly when the Life rule changes the cell, in both directions. |
| Life.Toggle | main.js:39-41 | A toggle keeps the shape, inverts the named cell and leaves every other cell as it was. |
| Life.ToggleTwice | main.js:39-41 | Toggling the same cell twice gives back the original grid. |
| Life.ApplyFlips | main.js:182-187 | Draining a queue of on-grid coordinates keeps the grid's shape. |
| Life.ApplyFlipsAt | main.js:182-187 | Draining a repetition-free queue inverts exactly the queued cells. Every other cell keeps its state. |
| Life.ApplyFlipsOrderFree | main.js:182-187 | Two repetition-free queues holding the same coordinates produce the same grid, so the pop order does not matter. |
| Life.FlipMaskAt | main.js:163-177 | The scan's decision for a cell is the test on that cell's own state and its neighbour count in the unchanged grid. |
| Life.ScanRowsSpec | main.js:161-162 | Collecting the marked cells row by row gives each cell at most once, and gives exactly the marked cells of the rows scanned. |
| Life.FlipsSpec | main.js:160-180 | A scan queues only on-grid coordinates, each at most once, and queues a coordinate exactly when the cell must die or be born. |
| Life.StepIsLife | main.js:160-193 | Scanning and then draining the queue is exactly one synchronous Life generation of the pre-step grid. |
| Life.DeadIsFixedPoint | main.js:160-193 | On an all-dead grid the scan queues nothing, and the next generation is the same all-dead grid. |
| Simulation.Cell.constructor | main.js:33-37 | A new cell records its coordinates and its initial state. |
| Simulation.Cell.FlipState | main.js:39-41 | The cell's state is inverted. Its coordinates are constants and nothing else is modified. |
| Simulation.Cell.CountLivingAdj | main.js:43-56 | The nested offset loop returns exactly the neighbour count of the cell's position in the game's grid, which is at most 8. It modifies nothing. |
| Simulation.Game.constructor | main.js:14-16 | The page-load state is a 60 x 40 all-dead grid at generation 1 with an empty queue, and the invariant holds. |
| Simulation.Game.ValidBounds | main.js:59-62 | Under the invariant, the check holds exactly when `(x, y)` is a cell of the grid. |
| Simulation.Game.InitCells | main.js:64-72 | The grid is rebuilt from fresh cells as `cellsHigh` rows of `cellsWide` dead cells, and the cell at `[y][x]` records `(x, y)`. |
| Simulation.Game.ToggleCell | main.js:131 | A manual edit inverts exactly the chosen cell and keeps the invariant. |
| Simulation.Game.HandleCurrentCells | main.js:160-180 | The grid is left unchanged. The queue is extended by exactly `Flips` of the grid, so each coordinate the rule changes is queued once, in row-major order. |
| Simulation.Game.SpawnNextCells | main.js:182-187 | The queue ends empty, and the grid is the old grid with every queued coordinate toggled, popped from the end. |
| Simulation.Game.Update | main.js:189-193 | After a step the grid is the Life rule applied to the pre-step grid, the queue is empty again and `currGen` has grown by exactly 1. |
| Simulation.Game.Clear | main.js:101-106 | The queue is empty, the generation is 1, and the grid is a fresh all-dead grid of unchanged size. |
| Simulation.Game.FlipDimensions | main.js:115-125 | Width and height are exchanged, the generation is 1, the queue stays empty, and the grid is a fresh all-dead grid of the new size. |
| Scenarios.LoneCellDies | main.js:165-170 | A live cell with no live neighbour dies in the next generation. |
| Scenarios.CentreIsBorn | main.js:171-176 | A dead cell with exactly three live neighbours is born in the next generation. |

## Left out

- Canvas and DOM work (main.js:3-11, 22-25, 142-158, 195-208) is drawing only and changes no simulation state. This covers `initCanvas`, `render`, `drawGrid`, the generation label and the element lookups.
- The start and pause handlers (main.js:79-99) only drive `update` from a timer and enable or disable buttons. The timer cannot be modelled, so only `update` itself is modelled.
- The FPS input (main.js:108-113) works on a DOM string value and only configures the timer.
- The pixel-to-cell translation in the click handlers (main.js:127-130, 135-140) is floating-point `Math.floor` arithmetic. The right-click handler only logs a neighbour count.
- Simulation.Game.ToggleCell: takes cell coordinates and requires them to be on the grid. The source indexes the grid directly, and an off-grid click there fails with a runtime error that the model does not represent.
- Debug logging and the `DEBUG` flag (main.js:1, 20, and the `console.debug` calls) have no effect on state.
- Simulation.Game.Update: `currGen` is an unbounded integer. In JavaScript it is a double, which loses precision after 2^53 generations.
- Simulation.Game.FlipDimensions: requires an empty queue rather than clearing it, as explained in the notes above.
