/** The grid engine as the program runs it: a Grid object whose rows are replaced by
    each generation step and edited in place by activation, and the Game that decides
    on every tick which of the two to do. Every method is proved against the functions
    of module Life. */
module GameOfLife {
  import opened Life

  class Grid {
    var rows: seq<Row>

    ghost predicate Valid()
      reads this
    {
      WellFormed(rows)
    }

    /** Builds the grid row by row; draws[y * Width + x] is the draw made for cell
        (x, y), taken in the same row-major order as the cells are created. */
    constructor NewGrid(draws: seq<bool>)
      requires |draws| == Width * Height
      ensures Valid()
      ensures forall x, y :: InGrid(x, y) ==> Alive(rows, x, y) == draws[y * Width + x]
    {
      var built: seq<Row> := [];
      for y := 0 to Height
        invariant |built| == y
        invariant forall b :: 0 <= b < y ==> |built[b].cells| == Width
        invariant forall b, a :: 0 <= b < y && 0 <= a < Width ==>
          built[b].cells[a] == Cell(a, b, draws[b * Width + a])
      {
        var row := NewRow();
        for x := 0 to Width
          invariant |row.cells| == x
          invariant forall a :: 0 <= a < x ==> row.cells[a] == Cell(a, y, draws[y * Width + a])
        {
          var cell := NewCell(x, y);
          if draws[y * Width + x] {
            cell := cell.(alive := true);
          }
          row := row.AddCell(cell);
        }
        built := built + [row];
      }
      rows := built;
    }

    /** Reads the state of the cell at (x, y); the cell found there is the one labelled
        (x, y), and no other cell of the grid carries that label. */
    function CheckAlive(x: int, y: int): (alive: bool)
      reads this
      requires Valid() && InGrid(x, y)
      ensures Cell(x, y, alive) in rows[y].cells
      ensures forall r, c :: r in rows && c in r.cells && c.x == x && c.y == y ==> c.alive == alive
    {
      Alive(rows, x, y)
    }

    /** Counts the live cells among the eight neighbours of (x, y), wrapping each
        coordinate on its own. Every wrapped index is inside the grid, whatever x and y
        are. */
    method CountAliveNeighbor(x: int, y: int) returns (count: int)
      requires Valid()
      ensures count == Count(rows, x, y)
    {
      count := 0;
      for j := -1 to 2
        invariant count == RowsDone(rows, x, y, j)
      {
        for i := -1 to 2
          invariant count == RowsDone(rows, x, y, j) + RowDone(rows, x, y, j, i)
        {
          if i == 0 && j == 0 {
            continue;
          }
          var nX := Wrap(x + i, MaxX);
          var nY := Wrap(y + j, MaxY);
          if CheckAlive(nX, nY) {
            count := count + 1;
          }
        }
      }
    }

    /** Replaces the rows by the next generation. The new rows are built apart from the
        current ones, which are only read, and are swapped in at the end. */
    method NextState()
      requires Valid()
      modifies this
      ensures Valid()
      ensures rows == Next(old(rows))
    {
      ghost var g := rows;
      var nextState: seq<Row> := [];
      for y := 0 to Height
        invariant rows == g
        invariant |nextState| == y
        invariant forall b :: 0 <= b < y ==> nextState[b] == NextRowOf(g, b)
      {
        var row := NewRow();
        for x := 0 to Width
          invariant rows == g
          invariant |row.cells| == x
          invariant forall a :: 0 <= a < x ==> row.cells[a] == NextCellOf(g, a, y)
        {
          var cell := NewCell(x, y);
          var isAlive := rows[y].cells[x].alive;
          cell := cell.(alive := isAlive);
          var aliveNeighbor := CountAliveNeighbor(x, y);
          if isAlive && (aliveNeighbor < 2 || aliveNeighbor > 3) {
            cell := cell.(alive := false);
          } else if isAlive || aliveNeighbor == 3 {
            cell := cell.(alive := true);
          }
          assert cell == Cell(x, y, Rule(isAlive, aliveNeighbor));
          assert isAlive == Alive(g, x, y) && aliveNeighbor == Count(g, x, y);
          assert cell == NextCellOf(g, x, y);
          row := row.AddCell(cell);
        }
        assert row.cells == NextRowOf(g, y).cells;
        nextState := nextState + [row];
      }
      assert nextState == Next(g);
      rows := nextState;
    }

    /** Forces alive the nine cells of the wrapped 3x3 block around (x, y), in place,
        within the current generation. */
    method SetAliveNeighbors(x: int, y: int)
      requires Valid()
      modifies this
      ensures Valid()
      ensures rows == Activate(old(rows), x, y)
    {
      for j := -1 to 2
        invariant WellFormed(rows)
        invariant forall a, b :: InGrid(a, b) ==>
          Alive(rows, a, b) == (Alive(old(rows), a, b) || (Before(b, y, j, MaxY) && Near(a, x, MaxX)))
      {
        for i := -1 to 2
          invariant WellFormed(rows)
          invariant forall a, b :: InGrid(a, b) ==>
            Alive(rows, a, b) ==
              (Alive(old(rows), a, b) || (Before(b, y, j, MaxY) && Near(a, x, MaxX))
               || (b == Wrap(y + j, MaxY) && Before(a, x, i, MaxX)))
        {
          var nX := Wrap(x + i, MaxX);
          var nY := Wrap(y + j, MaxY);
          rows := Set(rows, nX, nY, true);
        }
      }
      SameStates(rows, Activate(old(rows), x, y));
    }
  }

  /** Column (or row) of the cell under a pixel coordinate: Go's integer division by the
      scale, which truncates toward zero. */
  function CellIndex(pixel: int): (c: int)
    ensures pixel >= 0 ==> c * Scale <= pixel < c * Scale + Scale
    ensures pixel < 0 ==> c * Scale - Scale < pixel <= c * Scale
  {
    if pixel >= 0 then pixel / Scale else -((-pixel) / Scale)
  }

  /** A press is acted on only strictly inside the grid, away from every edge. */
  predicate Interior(x: int, y: int) {
    0 < x < MaxX && 0 < y < MaxY
  }

  class Game {
    var grid: Grid

    ghost predicate Valid()
      reads this, grid
    {
      grid.Valid()
    }

    /** Creates the game around a grid built from the given draws. */
    constructor Init(draws: seq<bool>)
      requires |draws| == Width * Height
      ensures Valid() && fresh(grid)
      ensures forall x, y :: InGrid(x, y) ==> Alive(grid.rows, x, y) == draws[y * Width + x]
    {
      grid := new Grid.NewGrid(draws);
    }

    /** One tick: with the button pressed, activates the block under the cursor when
        that cell is interior and otherwise does nothing; without a press, advances one
        generation. */
    method Update(cursorX: int, cursorY: int, pressed: bool)
      requires Valid()
      modifies grid
      ensures Valid()
      ensures var rx, ry := CellIndex(cursorX), CellIndex(cursorY);
        if !pressed then grid.rows == Next(old(grid.rows))
        else if Interior(rx, ry) then grid.rows == Activate(old(grid.rows), rx, ry)
        else grid.rows == old(grid.rows)
    {
      if pressed {
        var rx := CellIndex(cursorX);
        var ry := CellIndex(cursorY);
        if rx > 0 && rx < MaxX && ry > 0 && ry < MaxY {
          grid.SetAliveNeighbors(rx, ry);
        }
      } else {
        grid.NextState();
      }
    }
  }

  // ---------------------------------------------------------------------------
  // Proof helpers: what the loops of CountAliveNeighbor and SetAliveNeighbors have
  // covered so far.

  /** The looks at offsets -1 .. i-1 of neighbour row j, the centre skipped. */
  function RowDone(g: seq<Row>, x: int, y: int, j: int, i: int): nat
    requires WellFormed(g)
    decreases i + 1
  {
    if i <= -1 then 0
    else RowDone(g, x, y, j, i - 1) + (if i - 1 == 0 && j == 0 then 0 else Look(g, x, y, i - 1, j))
  }

  /** The looks in neighbour rows -1 .. j-1. */
  function RowsDone(g: seq<Row>, x: int, y: int, j: int): nat
    requires WellFormed(g)
    decreases j + 1
  {
    if j <= -1 then 0 else RowsDone(g, x, y, j - 1) + RowDone(g, x, y, j - 1, 2)
  }

  /** a is one of the wrapped coordinates c + k' for the steps k' in -1 .. k-1. */
  predicate Before(a: int, c: int, k: int, max: int)
    requires max >= 0
  {
    (k > -1 && a == Wrap(c - 1, max)) || (k > 0 && a == Wrap(c, max)) || (k > 1 && a == Wrap(c + 1, max))
  }
}
