# Game of Life grid engine, modelled in Dafny

This project models the grid engine of a small Game of Life program
(`gameoflife/gameoflife.go`). The engine keeps a fixed grid of 64 x 48 cells:
64 = 640 / 10 columns and 48 = 480 / 10 rows, the screen size divided by the
pixel scale. Each cell is alive or dead. The grid is a torus: a neighbour one
step past an edge is read on the opposite edge.

The engine has two transitions, chosen once per tick by `Game.Update`:

- **NextState** builds the next generation in a fresh collection of rows. It
  reads only the current rows and applies the standard rule: birth on exactly 3
  live neighbours, survival on 2 or 3. It then swaps the new rows in.
- **SetAliveNeighbors** forces alive, in place, the 3 x 3 block around a
  pressed cell. `Update` calls it only for strictly interior cells.

Two modules:

- `Life` (`life.dfy`) holds the rules on plain values:
  - the grid constants and the `Cell` and `Row` records;
  - the wrap of one coordinate (`Wrap`) and the eight-neighbour count (`Count`);
  - the per-cell rule (`Rule`), the next generation (`Next`) and the
    activated grid (`Activate`);
  - lemmas about these: each neighbour counted once and the centre never,
    locality, the empty grid, invariance under moving the grid around the
    torus, the 2 x 2 block and the blinker at every position, and idempotence
    and no-wrap-when-interior for activation.
- `GameOfLife` (`gameoflife.dfy`) holds the program's objects:
  - a `Grid` class whose field `rows` is replaced by `NextState` and edited by
    `SetAliveNeighbors`;
  - a `Game` class whose `Update` picks between the two.

  Each method loops as the Go code does. Its postcondition ties the new `rows`
  to a function of the old ones: `Next(old(rows))` or `Activate(old(rows), x, y)`.
  For `CountAliveNeighbor` it is the result that must equal `Count(rows, x, y)`.

Grid construction (`NewCell`, `NewRow`, `Row.AddCell`) is modelled by functions
of the same names. `NewGrid` and `NextState` use them in the same order as the
Go code.

Both loops in `CountAliveNeighbor` and `SetAliveNeighbors` wrap each coordinate
with the same two-branch test; the model computes it once, as `Wrap`.
`CountAliveNeighbor` and `SetAliveNeighbors` take any coordinates, as
unbounded integers. Their wrap always lands inside the grid. For coordinates
whose neighbour x ± 1 or y ± 1 fits in Go's 64-bit `int`, the Go code therefore
never indexes out of range there; its callers only pass in-grid cells.
Only `CheckAlive` requires its coordinates to be in range; out of range, the Go
slice index panics.

## Model

| member | source | states |
|---|---|---|
| `Life.NewCell` | gameoflife/gameoflife.go:25-31 | a new cell is dead and is labelled with the position it is given |
| `Life.NewRow` | gameoflife/gameoflife.go:46-51 | a new row holds no cells |
| `Life.Row.AddCell` | gameoflife/gameoflife.go:53-55 | adding a cell keeps the earlier cells in order and puts the new cell last |
| `GameOfLife.Grid.NewGrid` | gameoflife/gameoflife.go:133-149 | the built grid has 48 rows of 64 cells, each labelled with its own position; the cell at (x, y) is alive exactly when draw number y * 64 + x (row-major order) says so |
| `GameOfLife.Grid.CheckAlive` | gameoflife/gameoflife.go:61-63 | for an in-range (x, y), the cell found is the one labelled (x, y) with the returned state, and every cell of the grid labelled (x, y) has that state |
| `Life.Set` | gameoflife/gameoflife.go:128 | writing one cell's state changes that cell and no other, and the grid keeps its shape |
| `Life.Wrap` | gameoflife/gameoflife.go:93-104 | a wrapped coordinate always lies in [0, max], whatever the input; an in-range coordinate is left as it is |
| `Life.WrapIsModulo` | gameoflife/gameoflife.go:93-104 | for coordinates one step outside the grid at most, the wrap is reduction modulo 64 (columns) or 48 (rows): the grid is a torus of exactly that size |
| `Life.Look` | gameoflife/gameoflife.go:105-107 | one examined neighbour adds 0 or 1 to the count |
| `Life.Count` | gameoflife/gameoflife.go:86-111 | the neighbour count lies in [0, 8] |
| `GameOfLife.Grid.CountAliveNeighbor` | gameoflife/gameoflife.go:86-111 | the double loop with the centre skipped returns exactly the number of live cells among the eight wrapped neighbours (`Count`) |
| `Life.CountSkipsCentre` | gameoflife/gameoflife.go:90-92 | the cell's own state never affects its count |
| `Life.CountEachNeighbourOnce` | gameoflife/gameoflife.go:88-108 | each of the eight wrapped neighbours is counted exactly once: making it alive instead of dead raises the count by exactly one |
| `Life.CountOnlyNeighbours` | gameoflife/gameoflife.go:88-108 | two grids that agree on the eight wrapped neighbours of an in-grid cell give it the same count |
| `Life.CountAtCorner` | gameoflife/gameoflife.go:93-105 | at (0, 0) the examined neighbours include (63, 47), (63, 0) and (0, 47), and the count is the sum over the eight cells (63,47), (0,47), (1,47), (63,0), (1,0), (63,1), (0,1), (1,1) |
| `Life.LookWithoutWrap` | gameoflife/gameoflife.go:93-105 | when no border cell is alive, a neighbour look equals the unwrapped look, with off-grid positions read as dead |
| `Life.Rule` | gameoflife/gameoflife.go:72-78 | the three-way branch is the birth/survival rule: the next state is alive exactly when the count is 3, or when the cell is alive and the count is 2 |
| `Life.Next` | gameoflife/gameoflife.go:65-83 | the next generation again has 48 rows of 64 cells, the cell at row y, index x labelled (x, y) |
| `Life.NextAt` | gameoflife/gameoflife.go:70-79 | the next generation's cell at (x, y) is labelled (x, y) and its state is the rule applied to the old state and the old count |
| `Life.NextCell` | gameoflife/gameoflife.go:71-78 | a live cell with fewer than 2 or more than 3 live neighbours dies; with 2 or 3 it survives; a dead cell with 3 is born; every other dead cell stays dead |
| `GameOfLife.Grid.NextState` | gameoflife/gameoflife.go:65-83 | the new rows are exactly `Next` of the old rows: built from the old rows alone, which stay unchanged until the single final assignment |
| `Life.NextIsLocal` | gameoflife/gameoflife.go:71-73 | a cell's next state depends only on the wrapped 3 x 3 block around it in the old grid |
| `Life.NextOfAllDead` | gameoflife/gameoflife.go:74-78 | the next generation of an all-dead grid is all dead |
| `Life.NextShifted` | gameoflife/gameoflife.go:65-111 | stepping a grid moved by (dx, dy) around the torus gives the step of the original, moved by (dx, dy): the rule with its wrapped count favours no position |
| `Life.BlockIsStill` | gameoflife/gameoflife.go:65-83 | a lone 2 x 2 block at any position is unchanged by a step, including a block that crosses the border and wraps to the opposite edges |
| `Life.BlinkerTurns` | gameoflife/gameoflife.go:65-83 | a lone line of three cells centred anywhere, wrapping across the border included, turns into the perpendicular line of three through the same centre |
| `Life.BlinkerPeriodTwo` | gameoflife/gameoflife.go:65-83 | two steps bring a lone blinker at any position back to the starting grid |
| `Life.Activate` | gameoflife/gameoflife.go:113-131 | activation keeps the grid's shape and labels |
| `GameOfLife.Grid.SetAliveNeighbors` | gameoflife/gameoflife.go:113-131 | the nine single-cell writes leave the rows equal to `Activate` of the old rows: cells of the wrapped 3 x 3 block alive, all others unchanged |
| `Life.ActivateSetsBlock` | gameoflife/gameoflife.go:114-129 | each of the nine wrapped cells (x + i, y + j), i, j in {-1, 0, 1}, is alive afterwards, and every cell outside the block keeps its state |
| `Life.ActivateIdempotent` | gameoflife/gameoflife.go:113-131 | activating the same block twice gives the same grid as activating it once |
| `Life.ActivateInterior` | gameoflife/gameoflife.go:116-127 | for 0 < x < 63 and 0 < y < 47 nothing wraps: exactly the cells of [x-1, x+1] x [y-1, y+1] are forced alive, all others keep their state |
| `Life.ActivateAtEdgeWraps` | gameoflife/gameoflife.go:116-121 | outside the caller's guard the wrap is live: activating at column 0 makes a cell of column 63 alive |
| `Life.ActivateOnEmpty` | gameoflife/gameoflife.go:113-131 | on an all-dead grid, activating (5, 5) leaves exactly the nine cells from (4, 4) to (6, 6) alive |
| `GameOfLife.CellIndex` | gameoflife/gameoflife.go:167-168 | the pixel-to-cell index is Go's division by the scale, truncating toward zero: the pixel lies within the cell's ten pixels, on the side of zero for negative pixels |
| `GameOfLife.Game.Init` | gameoflife/gameoflife.go:156-162 | the game starts with a fresh grid built from the given draws |
| `GameOfLife.Game.Update` | gameoflife/gameoflife.go:164-176 | without a press the grid advances one generation; with a press on a strictly interior cell the block around it is activated; a press on a border cell or outside the grid changes nothing |

## Left out

- Rendering is not modelled: `Cell.Draw`, `Game.Draw`, `Game.Layout` and the image made in `Init`. They draw through an external graphics library.
- Cursor and mouse polling in `Game.Update` is input I/O. The cursor position and the button state are parameters of `Game.Update`.
- The random source is left out: `Init`'s seed 1234123 and `NewGrid`'s test `rnd.Float64() < 0.5`. The model takes the sequence of draws as a row-major `seq<bool>`, one entry per cell in creation order.
- `Game.Update`'s error result is always `nil` and is not modelled.
- `main.go` only sets window properties and starts the game loop; it is not part of this model.
- Rows and cells are values (`datatype`), not heap objects. The Go code holds them through pointers that are never shared. Its in-place write `Alive = true` is modelled as replacing that one cell inside the `rows` field (`Life.Set`). Pointer identity and aliasing are therefore not modelled.
- `GameOfLife.Grid.CountAliveNeighbor` does not model Go's 64-bit `int` overflow in `x + i` and `y + j`. At `x = math.MaxInt64` with `i = 1`, Go's sum wraps to a negative value and reads column 63, while the model's unbounded sum reads column 0; at `math.MinInt64` with `i = -1` it is the reverse, and the same holds for y. Its postcondition therefore matches the Go code only for coordinates whose neighbours fit in 64 bits. The program only calls it for in-grid cells.
- `GameOfLife.Grid.SetAliveNeighbors` does not model that overflow either: at `math.MaxInt64` or `math.MinInt64` Go activates the opposite edge from the model's `Activate`. `Game.Update` only calls it for interior cells.
- The grid size is fixed at 64 x 48, the program's own constants. Other sizes are not modelled.
