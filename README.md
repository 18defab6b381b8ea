# Simple dungeon generator: grid and random-walk carver

This project models the core of the simple dungeon generator in
`dungeon_gen_0_simple/sketch.js`: a `Dungeon` grid of cells, each a wall or
empty, and `randomWalkDungeonLimSteps`, which carves the dungeon by walking
a fixed number of steps.

- `wrappers.dfy` (module `Wrappers`): `Option`, which stands for the `null`
  sentinel the accessors return.
- `dungeon_grid.dfy` (module `DungeonGrid`): `Position` as a value, the cell
  states as `Cell = Wall | Empty` with their string names, and the class
  `Dungeon` over an `array2<Cell>` indexed `grid[y, x]`, like the source's
  `this.grid[y][x]`. The constructor fills the grid with walls in nested
  loops. `SetCell`, `SetWall` and `SetEmpty` are methods that write one
  cell. `InBounds`, `GetCell`, `IsWall`, `IsEmpty` and the four
  neighbour lookups are functions. The neighbour lookups wrap around the
  edges, so the grid is a torus.
- `random_walk.dfy` (module `RandomWalk`): the walk as an imperative loop.
  It is proved against the specification functions `PositionAfter`, the
  walker's position after n iterations, and `Visited`, the cells cleared
  in the first n iterations. The lemmas about those functions prove that:
  - from an on-grid start the walker stays on the grid;
  - every move is a single step on the torus;
  - from an off-grid start nothing moves and nothing is cleared;
  - at most one cell is cleared per step, and the start is cleared as soon
    as there is one step;
  - the cleared cells never outnumber the cells of the grid.

Design decisions:
- `setCell` takes its value as a string, and `CellOf` parses it. Any string
  other than `"wall"` or `"empty"` is rejected, as in the source. The grid
  stores `Cell` values, so the type itself enforces that the grid holds only
  these two states.
- The source never reassigns `width`, `height` and `grid` (it only writes
  grid cells), so they are `const` fields.
- The model does not require a positive width or height. The neighbour lookups
  compute `% width` and `% height` only for an in-bounds position, which
  implies both are positive. The source's `%` truncates where Dafny's is
  Euclidean. They agree here because both operands are non-negative.
- `Math.random()` is replaced by an injected sequence `choices`:
  `choices[i]` is the index picked in iteration `i`, and each entry must be
  below 4, like `Math.floor(Math.random() * validDirections.length)`
  whenever any direction survives the filter. `steps` is an integer. The loop
  runs `steps` times, or not at all when `steps` is not positive.
- The filter over the four candidates is `Present`. The reference move
  `Move` picks the chosen neighbour directly. `FilterKeepsMove` shows that
  the two agree: from an on-grid position all four candidates survive the
  filter, and from an off-grid one none does.
- The walk's doc comment says that each cell moved to is marked empty. The
  code marks the current cell before it moves, so the cell where the walk
  stops stays a wall unless it was visited earlier. The model follows the
  code (`StopCellNotCleared`).

## Model

| member | source | states |
|---|---|---|
| DungeonGrid.CellOf | dungeon_gen_0_simple/sketch.js:87-88 | only the strings "wall" and "empty" name a cell state, and the named state's name is that string |
| DungeonGrid.CellOfName | dungeon_gen_0_simple/sketch.js:87-91 | each cell state is named by exactly one string, and parsing that name returns the state |
| DungeonGrid.Dungeon.constructor | dungeon_gen_0_simple/sketch.js:33-43 | the new dungeon has the given width and height, and every cell is a wall |
| DungeonGrid.Dungeon.InBounds | dungeon_gen_0_simple/sketch.js:55-62 | true exactly when 0 ≤ x < width and 0 ≤ y < height, which can only hold when the grid has at least one row and one column |
| DungeonGrid.Dungeon.GetCell | dungeon_gen_0_simple/sketch.js:55-76 | returns None exactly when the position is outside 0 ≤ x < width, 0 ≤ y < height; otherwise it returns the stored cell grid[y][x] |
| DungeonGrid.Dungeon.SetCell | dungeon_gen_0_simple/sketch.js:87-93 | succeeds exactly when the position is in bounds and the value is "wall" or "empty"; on success the cell reads back as that value and no other cell changes; on failure nothing changes |
| DungeonGrid.Dungeon.SetWall | dungeon_gen_0_simple/sketch.js:102-104 | succeeds exactly when in bounds, after which the cell is a wall; no other cell changes |
| DungeonGrid.Dungeon.SetEmpty | dungeon_gen_0_simple/sketch.js:113-115 | succeeds exactly when in bounds, after which IsEmpty holds there; no other cell changes |
| DungeonGrid.Dungeon.IsWall | dungeon_gen_0_simple/sketch.js:123-126 | true exactly when the position is in bounds and holds a wall |
| DungeonGrid.Dungeon.IsEmpty | dungeon_gen_0_simple/sketch.js:134-137 | true exactly when the position is in bounds and holds an empty cell |
| DungeonGrid.Dungeon.GetRight | dungeon_gen_0_simple/sketch.js:146-152 | None exactly for an off-grid input; otherwise an in-bounds position in the same row, one column right, wrapping from the last column to column 0 |
| DungeonGrid.Dungeon.GetLeft | dungeon_gen_0_simple/sketch.js:161-167 | None exactly for an off-grid input; otherwise an in-bounds position in the same row, one column left, wrapping from column 0 to the last column |
| DungeonGrid.Dungeon.GetAbove | dungeon_gen_0_simple/sketch.js:176-182 | None exactly for an off-grid input; otherwise an in-bounds position in the same column, one row up, wrapping from row 0 to the last row |
| DungeonGrid.Dungeon.GetBelow | dungeon_gen_0_simple/sketch.js:191-197 | None exactly for an off-grid input; otherwise an in-bounds position in the same column, one row down, wrapping from the last row to row 0 |
| DungeonGrid.Dungeon.LeftUndoesRight | dungeon_gen_0_simple/sketch.js:146-167 | for an in-bounds p, the left neighbour of p's right neighbour is p |
| DungeonGrid.Dungeon.RightUndoesLeft | dungeon_gen_0_simple/sketch.js:146-167 | for an in-bounds p, the right neighbour of p's left neighbour is p |
| DungeonGrid.Dungeon.AboveUndoesBelow | dungeon_gen_0_simple/sketch.js:176-197 | for an in-bounds p, the neighbour above p's lower neighbour is p |
| DungeonGrid.Dungeon.BelowUndoesAbove | dungeon_gen_0_simple/sketch.js:176-197 | for an in-bounds p, the neighbour below p's upper neighbour is p |
| RandomWalk.Directions | dungeon_gen_0_simple/sketch.js:259-264 | four candidates that are all present when the position is on the grid and all absent when it is not |
| RandomWalk.Present | dungeon_gen_0_simple/sketch.js:267 | the filter keeps no more than it is given, keeps nothing when every candidate is absent, and keeps every candidate in order when every candidate is present |
| RandomWalk.Move | dungeon_gen_0_simple/sketch.js:269-273 | from an on-grid position the walker lands on the grid; from an off-grid one it stays put |
| RandomWalk.FilterKeepsMove | dungeon_gen_0_simple/sketch.js:259-273 | from an on-grid position the filter keeps all four candidates and the chosen one is the reference move; from an off-grid one it keeps none, so no move happens |
| RandomWalk.NeighboursAdjacent | dungeon_gen_0_simple/sketch.js:146-197 | each of the four neighbours of an on-grid position differs from it in one coordinate only, by +1 or -1 modulo width or height |
| RandomWalk.MoveIsAdjacent | dungeon_gen_0_simple/sketch.js:259-273 | one iteration from an on-grid position lands on the grid, next to the position on the torus |
| RandomWalk.RandomWalkDungeonLimSteps | dungeon_gen_0_simple/sketch.js:251-275 | afterwards a cell is empty if the walker stood on it at the start of some iteration and otherwise keeps its old value; no empty cell becomes a wall; an off-grid start leaves the grid unchanged |
| RandomWalk.PositionStaysInBounds | dungeon_gen_0_simple/sketch.js:252-273 | from an on-grid start, the current position is on the grid after every iteration |
| RandomWalk.WalkMovesToAdjacent | dungeon_gen_0_simple/sketch.js:259-273 | from an on-grid start, each iteration moves the walker to a cell adjacent to its previous one on the torus |
| RandomWalk.PositionStuckOffGrid | dungeon_gen_0_simple/sketch.js:254-273 | from an off-grid start the walker never moves, and at every iteration all four candidates it sees are absent |
| RandomWalk.TrailVisited | dungeon_gen_0_simple/sketch.js:254-256 | every position the walker stands on at the start of an iteration is cleared by the walk, so every position visited before the final move ends up empty |
| RandomWalk.VisitedOffGrid | dungeon_gen_0_simple/sketch.js:254-273 | from an off-grid start the only position setEmpty is called on is the start itself, so no cell is cleared |
| RandomWalk.VisitedOnGrid | dungeon_gen_0_simple/sketch.js:254-273 | from an on-grid start every cleared position is on the grid |
| RandomWalk.VisitedCount | dungeon_gen_0_simple/sketch.js:254-256 | at most n cells are cleared in n iterations, and the start is cleared once there is at least one iteration |
| RandomWalk.StopCellNotCleared | dungeon_gen_0_simple/sketch.js:254-273 | the cell where the walk stops need not be cleared: one step right on a 3 by 1 dungeon clears only the start |
| RandomWalk.VisitedFitsGrid | dungeon_gen_0_simple/sketch.js:254-273 | from an on-grid start the number of cleared cells is at most width times height |
| RandomWalk.CarveNewDungeon | dungeon_gen_0_simple/sketch.js:279-285 | a new dungeon carved from an on-grid start has empty cells exactly where the walker stood; the start is empty when steps ≥ 1; the number of empty cells is at most the step count and at most the number of cells |

## Left out

- Drawing: `Dungeon.draw`, `setup`'s canvas creation and the p5 `draw` callback (canvas calls and global state), and `cellWidth`/`cellHeight` (floating-point sizes used only for drawing).
- `setup`'s fixed 10 by 10 dungeon, centre start and 100 steps are not fixed: `CarveNewDungeon` takes the size, start and step count as parameters.
- `Math.random()`: the index picked in each iteration is an input (`choices`), so every property holds for every possible sequence of choices. The randomness itself (uniformity) is not modelled.
- RandomWalk.RandomWalkDungeonLimSteps: requires each injected choice to be below 4 and at least `steps` choices. These restate the contract of the random source, not a demand the source makes of its callers.
- Non-integer coordinates and sizes: JavaScript numbers may be fractional, which the source does not guard against. Positions here are integers, and width and height are natural numbers. A negative width with a positive height makes `Array(width)` throw; a negative height gives a grid with no cells, which behaves like height 0; the `nat` sizes exclude both.
- Values of other types passed to `setCell`: the value is modelled as a string. Any string other than "wall" or "empty" is rejected, as in the source.
- The `Position` class is a value (`DungeonGrid.Position`). The source never mutates a Position after construction, so aliasing between Position objects is not modelled.
- The curve sketch (`florals/sketch.js`) and the Python site and project scripts are not part of this model. They are floating-point drawing code and file-system plumbing.
