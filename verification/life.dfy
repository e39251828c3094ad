/** The grid engine's rules on plain values: the fixed grid size, cells and rows,
    toroidal wrap-around, neighbour counting, the birth/survival rule, the next
    generation and the activation of a 3x3 neighbourhood. The classes of module
    GameOfLife are proved against the functions here. */
module Life {

  /** Pixels per cell, and the screen size in pixels. */
  const Scale: int := 10
  const ScreenWidth: int := 640
  const ScreenHeight: int := 480

  /** Columns and rows of the grid, and the largest index on each axis. */
  const Width: int := ScreenWidth / Scale
  const Height: int := ScreenHeight / Scale
  const MaxX: int := Width - 1
  const MaxY: int := Height - 1

  /** A cell knows its own column x, its row y and whether it is alive. */
  datatype Cell = Cell(x: int, y: int, alive: bool)

  datatype Row = Row(cells: seq<Cell>) {
    /** Appends a cell at the end of the row. */
    function AddCell(c: Cell): (r: Row)
      ensures |r.cells| == |cells| + 1
      ensures forall k :: 0 <= k < |cells| ==> r.cells[k] == cells[k]
      ensures r.cells[|cells|] == c
    {
      Row(cells + [c])
    }
  }

  /** A fresh cell is dead and sits at the position it is given. */
  function NewCell(x: int, y: int): (c: Cell)
    ensures c.x == x && c.y == y && !c.alive
  {
    Cell(x, y, false)
  }

  /** A fresh row holds no cells. */
  function NewRow(): (r: Row)
    ensures |r.cells| == 0
  {
    Row([])
  }

  predicate InGrid(x: int, y: int) {
    0 <= x <= MaxX && 0 <= y <= MaxY
  }

  /** Height rows of Width cells each; the cell at row y, index x is labelled (x, y),
      so every position has exactly one cell. */
  predicate WellFormed(g: seq<Row>) {
    |g| == Height &&
    forall y :: 0 <= y < Height ==>
      |g[y].cells| == Width &&
      forall x :: 0 <= x < Width ==> g[y].cells[x].x == x && g[y].cells[x].y == y
  }

  function Alive(g: seq<Row>, x: int, y: int): bool
    requires WellFormed(g) && InGrid(x, y)
  {
    g[y].cells[x].alive
  }

  ghost predicate AllDead(g: seq<Row>)
    requires WellFormed(g)
  {
    forall x, y :: InGrid(x, y) ==> !Alive(g, x, y)
  }

  /** The grid with the cell at (x, y) given state v. */
  function Set(g: seq<Row>, x: int, y: int, v: bool): (r: seq<Row>)
    requires WellFormed(g) && InGrid(x, y)
    ensures WellFormed(r)
    ensures forall a, b :: InGrid(a, b) ==>
      Alive(r, a, b) == if a == x && b == y then v else Alive(g, a, b)
  {
    g[y := Row(g[y].cells[x := Cell(x, y, v)])]
  }

  /** A well-formed grid is determined by the states of its cells. */
  lemma SameStates(g: seq<Row>, h: seq<Row>)
    requires WellFormed(g) && WellFormed(h)
    requires forall a, b :: InGrid(a, b) ==> Alive(g, a, b) == Alive(h, a, b)
    ensures g == h
  {
    forall y | 0 <= y < Height
      ensures g[y] == h[y]
    {
      forall x | 0 <= x < Width
        ensures g[y].cells[x] == h[y].cells[x]
      {
        assert Alive(g, x, y) == Alive(h, x, y);
      }
      assert g[y].cells == h[y].cells;
    }
  }

  // ---------------------------------------------------------------------------
  // Toroidal wrap-around

  /** A neighbour coordinate on an axis whose largest index is max: one below 0 wraps to
      max, one past max wraps to 0. */
  function Wrap(c: int, max: int): (w: int)
    requires max >= 0
    ensures 0 <= w <= max
    ensures 0 <= c <= max ==> w == c
  {
    if c < 0 then max
    else if c > max then 0
    else c
  }

  /** For coordinates one step around the grid, the wrap is arithmetic modulo the axis
      length: the grid is a torus of exactly Width x Height cells. */
  lemma WrapIsModulo(cx: int, cy: int)
    requires -1 <= cx <= Width && -1 <= cy <= Height
    ensures Wrap(cx, MaxX) == cx % Width
    ensures Wrap(cy, MaxY) == cy % Height
  {
    assert Width == 64 && Height == 48;
    if cx == -1 {
      assert -1 % 64 == 63;
    } else if cx == Width {
      assert 64 % 64 == 0;
    }
    if cy == -1 {
      assert -1 % 48 == 47;
    } else if cy == Height {
      assert 48 % 48 == 0;
    }
  }

  /** Distinct steps of at most one from c wrap to distinct coordinates, because each
      axis has more than two cells. */
  lemma WrapInjective(c: int, max: int, k: int, i: int)
    requires 2 <= max && 0 <= c <= max && -1 <= k <= 1 && -1 <= i <= 1
    ensures Wrap(c + k, max) == Wrap(c + i, max) ==> k == i
  {
  }

  /** a is within one wrapped step of c on an axis whose largest index is max. */
  predicate Near(a: int, c: int, max: int)
    requires max >= 0
  {
    a == Wrap(c - 1, max) || a == Wrap(c, max) || a == Wrap(c + 1, max)
  }

  /** (a, b) lies in the wrapped 3x3 block centred on (x, y). */
  predicate InBlock(a: int, b: int, x: int, y: int) {
    Near(a, x, MaxX) && Near(b, y, MaxY)
  }

  // ---------------------------------------------------------------------------
  // Neighbour counting

  /** 1 if the neighbour at offset (i, j) from (x, y), wrapped, is alive. */
  function Look(g: seq<Row>, x: int, y: int, i: int, j: int): (n: nat)
    requires WellFormed(g)
    ensures n <= 1
  {
    if Alive(g, Wrap(x + i, MaxX), Wrap(y + j, MaxY)) then 1 else 0
  }

  /** The number of live cells among the eight wrapped neighbours of (x, y). */
  function Count(g: seq<Row>, x: int, y: int): (n: nat)
    requires WellFormed(g)
    ensures n <= 8
  {
    Look(g, x, y, -1, -1) + Look(g, x, y, 0, -1) + Look(g, x, y, 1, -1) +
    Look(g, x, y, -1, 0) + Look(g, x, y, 1, 0) +
    Look(g, x, y, -1, 1) + Look(g, x, y, 0, 1) + Look(g, x, y, 1, 1)
  }

  /** Changing the cell at (a, b) changes the look at offset (i, j) only if that offset
      wraps onto (a, b). */
  lemma LookAfterSet(g: seq<Row>, a: int, b: int, v: bool, x: int, y: int, i: int, j: int)
    requires WellFormed(g) && InGrid(a, b)
    ensures Look(Set(g, a, b, v), x, y, i, j) ==
      if Wrap(x + i, MaxX) == a && Wrap(y + j, MaxY) == b then Bit(v) else Look(g, x, y, i, j)
  {
  }

  /** Grids that look the same from (x, y) in all eight directions give it the same
      count. */
  lemma SameLooksSameCount(g: seq<Row>, h: seq<Row>, x: int, y: int)
    requires WellFormed(g) && WellFormed(h)
    requires forall i, j :: -1 <= i <= 1 && -1 <= j <= 1 && (i, j) != (0, 0) ==>
      Look(g, x, y, i, j) == Look(h, x, y, i, j)
    ensures Count(g, x, y) == Count(h, x, y)
  {
  }

  /** Grids that look the same from (x, y) except in direction (i, j), where g sees one
      more live cell, differ in count by one. */
  lemma OneMoreLookOneMoreCount(g: seq<Row>, h: seq<Row>, x: int, y: int, i: int, j: int)
    requires WellFormed(g) && WellFormed(h)
    requires -1 <= i <= 1 && -1 <= j <= 1 && (i, j) != (0, 0)
    requires forall k, l :: -1 <= k <= 1 && -1 <= l <= 1 ==>
      Look(g, x, y, k, l) == Look(h, x, y, k, l) + Bit((k, l) == (i, j))
    ensures Count(g, x, y) == Count(h, x, y) + 1
  {
  }

  /** A neighbour of an in-grid cell is never the cell itself. */
  lemma NeighbourIsNotCentre(x: int, y: int, i: int, j: int)
    requires InGrid(x, y) && -1 <= i <= 1 && -1 <= j <= 1 && (i, j) != (0, 0)
    ensures (Wrap(x + i, MaxX), Wrap(y + j, MaxY)) != (x, y)
  {
    WrapInjective(x, MaxX, i, 0);
    WrapInjective(y, MaxY, j, 0);
  }

  /** The cell itself is never counted: changing it leaves its count alone. */
  lemma CountSkipsCentre(g: seq<Row>, x: int, y: int, v: bool)
    requires WellFormed(g) && InGrid(x, y)
    ensures Count(Set(g, x, y, v), x, y) == Count(g, x, y)
  {
    var changed := Set(g, x, y, v);
    forall i, j | -1 <= i <= 1 && -1 <= j <= 1 && (i, j) != (0, 0)
      ensures Look(changed, x, y, i, j) == Look(g, x, y, i, j)
    {
      NeighbourIsNotCentre(x, y, i, j);
      LookAfterSet(g, x, y, v, x, y, i, j);
    }
    SameLooksSameCount(changed, g, x, y);
  }

  /** Each of the eight neighbours is counted exactly once: switching one of them from
      dead to alive raises the count by one. */
  lemma CountEachNeighbourOnce(g: seq<Row>, x: int, y: int, i: int, j: int)
    requires WellFormed(g) && InGrid(x, y)
    requires -1 <= i <= 1 && -1 <= j <= 1 && (i, j) != (0, 0)
    ensures var a, b := Wrap(x + i, MaxX), Wrap(y + j, MaxY);
      Count(Set(g, a, b, true), x, y) == Count(Set(g, a, b, false), x, y) + 1
  {
    var a, b := Wrap(x + i, MaxX), Wrap(y + j, MaxY);
    var on, off := Set(g, a, b, true), Set(g, a, b, false);
    forall k, l | -1 <= k <= 1 && -1 <= l <= 1
      ensures Look(on, x, y, k, l) == Look(off, x, y, k, l) + Bit((k, l) == (i, j))
    {
      WrapInjective(x, MaxX, k, i);
      WrapInjective(y, MaxY, l, j);
      LookAfterSet(g, a, b, true, x, y, k, l);
      LookAfterSet(g, a, b, false, x, y, k, l);
    }
    OneMoreLookOneMoreCount(on, off, x, y, i, j);
  }

  /** Only the eight neighbours are examined: grids that agree on them give the same
      count. */
  lemma CountOnlyNeighbours(g: seq<Row>, h: seq<Row>, x: int, y: int)
    requires WellFormed(g) && WellFormed(h)
    requires forall a, b :: InGrid(a, b) && InBlock(a, b, x, y) && (a, b) != (x, y) ==>
      Alive(g, a, b) == Alive(h, a, b)
    ensures InGrid(x, y) ==> Count(g, x, y) == Count(h, x, y)
  {
    if InGrid(x, y) {
      forall i, j | -1 <= i <= 1 && -1 <= j <= 1 && (i, j) != (0, 0)
        ensures Look(g, x, y, i, j) == Look(h, x, y, i, j)
      {
        var a, b := Wrap(x + i, MaxX), Wrap(y + j, MaxY);
        NeighbourIsNotCentre(x, y, i, j);
        assert InBlock(a, b, x, y);
      }
      SameLooksSameCount(g, h, x, y);
    }
  }

  /** At the corner (0, 0) the examined neighbours wrap to the opposite edges. */
  lemma CountAtCorner(g: seq<Row>)
    requires WellFormed(g)
    ensures InBlock(MaxX, MaxY, 0, 0) && InBlock(MaxX, 0, 0, 0) && InBlock(0, MaxY, 0, 0)
    ensures Count(g, 0, 0) ==
      Bit(Alive(g, MaxX, MaxY)) + Bit(Alive(g, 0, MaxY)) + Bit(Alive(g, 1, MaxY)) +
      Bit(Alive(g, MaxX, 0)) + Bit(Alive(g, 1, 0)) +
      Bit(Alive(g, MaxX, 1)) + Bit(Alive(g, 0, 1)) + Bit(Alive(g, 1, 1))
  {
  }

  function Bit(b: bool): nat {
    if b then 1 else 0
  }

  // ---------------------------------------------------------------------------
  // One generation

  /** The state of a cell in the next generation, given its state and its count. */
  function Rule(alive: bool, n: int): (next: bool)
    ensures next <==> n == 3 || (alive && n == 2)
  {
    if alive && (n < 2 || n > 3) then false
    else if alive || n == 3 then true
    else false
  }

  /** The cell at (x, y) in the next generation. */
  function NextCellOf(g: seq<Row>, x: int, y: int): Cell
    requires WellFormed(g) && InGrid(x, y)
  {
    Cell(x, y, Rule(Alive(g, x, y), Count(g, x, y)))
  }

  /** Row y of the next generation. */
  function NextRowOf(g: seq<Row>, y: int): (r: Row)
    requires WellFormed(g) && 0 <= y < Height
    ensures |r.cells| == Width
    ensures forall x :: 0 <= x < Width ==> r.cells[x] == NextCellOf(g, x, y)
  {
    Row(seq(Width, x requires 0 <= x < Width => NextCellOf(g, x, y)))
  }

  /** The next generation, computed from g alone. */
  function Next(g: seq<Row>): (r: seq<Row>)
    requires WellFormed(g)
    ensures |r| == Height
    ensures forall y :: 0 <= y < Height ==> r[y] == NextRowOf(g, y)
    ensures WellFormed(r)
  {
    seq(Height, y requires 0 <= y < Height => NextRowOf(g, y))
  }

  /** The cell at (x, y) of the next generation: same position, state given by the rule. */
  lemma NextAt(g: seq<Row>, x: int, y: int)
    requires WellFormed(g) && InGrid(x, y)
    ensures Next(g)[y].cells[x] == Cell(x, y, Rule(Alive(g, x, y), Count(g, x, y)))
  {
  }

  /** The birth/survival rule, cell by cell. */
  lemma NextCell(g: seq<Row>, x: int, y: int)
    requires WellFormed(g) && InGrid(x, y)
    ensures var n := Count(g, x, y);
      && (Alive(g, x, y) && (n < 2 || n > 3) ==> !Alive(Next(g), x, y))
      && (Alive(g, x, y) && (n == 2 || n == 3) ==> Alive(Next(g), x, y))
      && (!Alive(g, x, y) && n == 3 ==> Alive(Next(g), x, y))
      && (!Alive(g, x, y) && n != 3 ==> !Alive(Next(g), x, y))
  {
  }

  /** A cell of the next generation depends only on the 3x3 block around it. */
  lemma NextIsLocal(g: seq<Row>, h: seq<Row>, x: int, y: int)
    requires WellFormed(g) && WellFormed(h) && InGrid(x, y)
    requires forall a, b :: InGrid(a, b) && InBlock(a, b, x, y) ==> Alive(g, a, b) == Alive(h, a, b)
    ensures Alive(Next(g), x, y) == Alive(Next(h), x, y)
  {
    CountOnlyNeighbours(g, h, x, y);
    assert InBlock(x, y, x, y);
    NextAt(g, x, y);
    NextAt(h, x, y);
  }

  /** No cell is born on an empty grid. */
  lemma NextOfAllDead(g: seq<Row>)
    requires WellFormed(g) && AllDead(g)
    ensures AllDead(Next(g))
  {
  }

  // ---------------------------------------------------------------------------
  // A dead border

  /** No cell on the border of the grid is alive. */
  ghost predicate EdgesDead(g: seq<Row>)
    requires WellFormed(g)
  {
    forall a, b :: InGrid(a, b) && (a == 0 || a == MaxX || b == 0 || b == MaxY) ==> !Alive(g, a, b)
  }

  /** When the border is dead, wrapping never matters: a neighbour off the grid reads as
      dead and every other neighbour is read at its plain position. */
  lemma LookWithoutWrap(g: seq<Row>, x: int, y: int, i: int, j: int)
    requires WellFormed(g) && EdgesDead(g) && InGrid(x, y) && -1 <= i <= 1 && -1 <= j <= 1
    ensures Look(g, x, y, i, j) == Bit(InGrid(x + i, y + j) && Alive(g, x + i, y + j))
  {
  }

  // ---------------------------------------------------------------------------
  // Moving a pattern around the torus

  /** Reduction modulo an axis length absorbs an earlier reduction. */
  lemma ModAbsorbs(c: int, d: int, m: int)
    requires m == Width || m == Height
    ensures (c % m + d) % m == (c + d) % m
  {
    assert Width == 64 && Height == 48;
  }

  /** g moved by (dx, dy) around the torus: the cell at (a, b) takes the state of the
      cell at ((a - dx) mod Width, (b - dy) mod Height). */
  function Shift(g: seq<Row>, dx: int, dy: int): (r: seq<Row>)
    requires WellFormed(g)
    ensures WellFormed(r)
    ensures forall a, b :: InGrid(a, b) ==>
      Alive(r, a, b) == Alive(g, (a - dx) % Width, (b - dy) % Height)
  {
    seq(Height, b requires 0 <= b < Height =>
      Row(seq(Width, a requires 0 <= a < Width =>
        Cell(a, b, Alive(g, (a - dx) % Width, (b - dy) % Height)))))
  }

  /** Each neighbour of (x, y) in the moved grid is the same neighbour of the cell the
      move brought to (x, y). */
  lemma LookShifted(g: seq<Row>, dx: int, dy: int, x: int, y: int, i: int, j: int)
    requires WellFormed(g) && InGrid(x, y) && -1 <= i <= 1 && -1 <= j <= 1
    ensures Look(Shift(g, dx, dy), x, y, i, j) == Look(g, (x - dx) % Width, (y - dy) % Height, i, j)
  {
    var u, v := (x - dx) % Width, (y - dy) % Height;
    WrapIsModulo(x + i, y + j);
    WrapIsModulo(u + i, v + j);
    ModAbsorbs(x + i, -dx, Width);
    ModAbsorbs(y + j, -dy, Height);
    ModAbsorbs(x - dx, i, Width);
    ModAbsorbs(y - dy, j, Height);
  }

  /** The rule has no favoured position on the torus: stepping a moved grid gives the
      moved step. */
  lemma NextShifted(g: seq<Row>, dx: int, dy: int)
    requires WellFormed(g)
    ensures Next(Shift(g, dx, dy)) == Shift(Next(g), dx, dy)
  {
    var h := Shift(g, dx, dy);
    forall a, b | InGrid(a, b)
      ensures Alive(Next(h), a, b) == Alive(Shift(Next(g), dx, dy), a, b)
    {
      var u, v := (a - dx) % Width, (b - dy) % Height;
      forall i, j | -1 <= i <= 1 && -1 <= j <= 1
        ensures Look(h, a, b, i, j) == Look(g, u, v, i, j)
      {
        LookShifted(g, dx, dy, a, b, i, j);
      }
      NextAt(h, a, b);
      NextAt(g, u, v);
    }
    SameStates(Next(h), Shift(Next(g), dx, dy));
  }

  // ---------------------------------------------------------------------------
  // Patterns

  /** The 2x2 square whose lowest corner is (p, q): columns p and p + 1, rows q and
      q + 1, each taken around the torus. */
  predicate InSquare(a: int, b: int, p: int, q: int) {
    (a == p || a == Wrap(p + 1, MaxX)) && (b == q || b == Wrap(q + 1, MaxY))
  }

  /** Three cells in a line centred on (p, q), wrapped: a row when horizontal, else a
      column. */
  predicate OnLine(a: int, b: int, p: int, q: int, horizontal: bool) {
    if horizontal then b == q && Near(a, p, MaxX)
    else a == p && Near(b, q, MaxY)
  }

  datatype Shape = Square | Line(horizontal: bool)

  predicate InShape(a: int, b: int, p: int, q: int, s: Shape) {
    match s
    case Square => InSquare(a, b, p, q)
    case Line(horizontal) => OnLine(a, b, p, q, horizontal)
  }

  /** The grid in which exactly the cells of shape s placed at (p, q) are alive. */
  function Pattern(p: int, q: int, s: Shape): (r: seq<Row>)
    ensures WellFormed(r)
    ensures forall a, b :: InGrid(a, b) ==> (Alive(r, a, b) <==> InShape(a, b, p, q, s))
  {
    seq(Height, b requires 0 <= b < Height =>
      Row(seq(Width, a requires 0 <= a < Width => Cell(a, b, InShape(a, b, p, q, s)))))
  }

  /** Measured from the home position 2, the offset of a from p says where a lies
      relative to p on an axis of length m. */
  lemma OffsetFromHome(a: int, p: int, m: int)
    requires (m == Width || m == Height) && 0 <= a < m && 0 <= p < m
    ensures (a - (p - 2)) % m == 2 <==> a == p
    ensures (a - (p - 2)) % m == 3 <==> a == Wrap(p + 1, m - 1)
    ensures (a - (p - 2)) % m == 1 <==> a == Wrap(p - 1, m - 1)
  {
    assert Width == 64 && Height == 48;
  }

  /** A cell lies in a shape placed at (p, q) exactly when the cell the move from (2, 2)
      brings to it lies in the shape placed at (2, 2). */
  lemma ShapeMoves(a: int, b: int, p: int, q: int, s: Shape)
    requires InGrid(a, b) && InGrid(p, q)
    ensures InShape(a, b, p, q, s) == InShape((a - (p - 2)) % Width, (b - (q - 2)) % Height, 2, 2, s)
  {
    var u, v := (a - (p - 2)) % Width, (b - (q - 2)) % Height;
    OffsetFromHome(a, p, Width);
    OffsetFromHome(b, q, Height);
    assert Near(u, 2, MaxX) <==> 1 <= u <= 3;
    assert Near(v, 2, MaxY) <==> 1 <= v <= 3;
  }

  /** Every placement of a shape is its placement at (2, 2) moved around the torus. */
  lemma PatternMoves(p: int, q: int, s: Shape)
    requires InGrid(p, q)
    ensures Pattern(p, q, s) == Shift(Pattern(2, 2, s), p - 2, q - 2)
  {
    var moved := Shift(Pattern(2, 2, s), p - 2, q - 2);
    forall a, b | InGrid(a, b)
      ensures Alive(Pattern(p, q, s), a, b) == Alive(moved, a, b)
    {
      ShapeMoves(a, b, p, q, s);
    }
    SameStates(Pattern(p, q, s), moved);
  }

  /** A lone 2x2 block at (2, 2) is still: no look from any cell wraps. */
  lemma BlockIsStillAtHome(g: seq<Row>)
    requires WellFormed(g)
    requires forall a, b :: InGrid(a, b) ==> (Alive(g, a, b) <==> InSquare(a, b, 2, 2))
    ensures Next(g) == g
  {
    forall a, b | InGrid(a, b)
      ensures Alive(Next(g), a, b) == Alive(g, a, b)
    {
      forall i, j | -1 <= i <= 1 && -1 <= j <= 1
        ensures Look(g, a, b, i, j) == Bit(2 <= a + i <= 3 && 2 <= b + j <= 3)
      {
        LookWithoutWrap(g, a, b, i, j);
      }
      NextAt(g, a, b);
    }
    SameStates(Next(g), g);
  }

  /** A lone blinker centred on (2, 2) turns a quarter: no look from any cell wraps. */
  lemma BlinkerTurnsAtHome(g: seq<Row>, horizontal: bool)
    requires WellFormed(g)
    requires forall a, b :: InGrid(a, b) ==> (Alive(g, a, b) <==> OnLine(a, b, 2, 2, horizontal))
    ensures forall a, b :: InGrid(a, b) ==> (Alive(Next(g), a, b) <==> OnLine(a, b, 2, 2, !horizontal))
  {
  }

  /** A lone 2x2 block is a still life wherever it lies on the torus, across the border
      included: each of its cells has three live neighbours and no dead cell has
      three. */
  lemma BlockIsStill(g: seq<Row>, p: int, q: int)
    requires WellFormed(g) && InGrid(p, q)
    requires forall a, b :: InGrid(a, b) ==> (Alive(g, a, b) <==> InSquare(a, b, p, q))
    ensures Next(g) == g
  {
    var home := Pattern(2, 2, Square);
    SameStates(g, Pattern(p, q, Square));
    PatternMoves(p, q, Square);
    BlockIsStillAtHome(home);
    NextShifted(home, p - 2, q - 2);
  }

  /** A lone blinker turns a quarter wherever it lies on the torus: the line through
      (p, q) changes orientation. */
  lemma BlinkerTurns(g: seq<Row>, p: int, q: int, horizontal: bool)
    requires WellFormed(g) && InGrid(p, q)
    requires forall a, b :: InGrid(a, b) ==> (Alive(g, a, b) <==> OnLine(a, b, p, q, horizontal))
    ensures forall a, b :: InGrid(a, b) ==> (Alive(Next(g), a, b) <==> OnLine(a, b, p, q, !horizontal))
  {
    var home, turned := Pattern(2, 2, Line(horizontal)), Pattern(2, 2, Line(!horizontal));
    SameStates(g, Pattern(p, q, Line(horizontal)));
    PatternMoves(p, q, Line(horizontal));
    PatternMoves(p, q, Line(!horizontal));
    BlinkerTurnsAtHome(home, horizontal);
    SameStates(Next(home), turned);
    NextShifted(home, p - 2, q - 2);
  }

  /** A lone blinker has period two: two steps give back the starting grid. */
  lemma BlinkerPeriodTwo(g: seq<Row>, p: int, q: int, horizontal: bool)
    requires WellFormed(g) && InGrid(p, q)
    requires forall a, b :: InGrid(a, b) ==> (Alive(g, a, b) <==> OnLine(a, b, p, q, horizontal))
    ensures Next(Next(g)) == g
  {
    BlinkerTurns(g, p, q, horizontal);
    BlinkerTurns(Next(g), p, q, !horizontal);
    SameStates(Next(Next(g)), g);
  }

  // ---------------------------------------------------------------------------
  // Activation of a neighbourhood

  /** g with every cell of the wrapped 3x3 block around (x, y) alive. */
  function Activate(g: seq<Row>, x: int, y: int): (r: seq<Row>)
    requires WellFormed(g)
    ensures WellFormed(r)
  {
    seq(Height, b requires 0 <= b < Height =>
      Row(seq(Width, a requires 0 <= a < Width =>
        Cell(a, b, Alive(g, a, b) || InBlock(a, b, x, y)))))
  }

  /** All nine wrapped cells (x + i, y + j) are alive afterwards, and every other cell
      keeps its state. */
  lemma ActivateSetsBlock(g: seq<Row>, x: int, y: int, i: int, j: int)
    requires WellFormed(g) && -1 <= i <= 1 && -1 <= j <= 1
    ensures Alive(Activate(g, x, y), Wrap(x + i, MaxX), Wrap(y + j, MaxY))
    ensures forall a, b :: InGrid(a, b) && !InBlock(a, b, x, y) ==>
      Alive(Activate(g, x, y), a, b) == Alive(g, a, b)
  {
  }

  /** Activating the same neighbourhood twice is the same as activating it once. */
  lemma ActivateIdempotent(g: seq<Row>, x: int, y: int)
    requires WellFormed(g)
    ensures Activate(Activate(g, x, y), x, y) == Activate(g, x, y)
  {
    SameStates(Activate(Activate(g, x, y), x, y), Activate(g, x, y));
  }

  /** Strictly inside the grid no coordinate wraps: the block is the plain square
      [x-1, x+1] x [y-1, y+1]. */
  lemma ActivateInterior(g: seq<Row>, x: int, y: int)
    requires WellFormed(g) && 0 < x < MaxX && 0 < y < MaxY
    ensures forall a, b :: InGrid(a, b) ==>
      (Alive(Activate(g, x, y), a, b) <==>
       Alive(g, a, b) || (x - 1 <= a <= x + 1 && y - 1 <= b <= y + 1))
  {
  }

  /** On the edge the block does wrap: activating at column 0 touches column MaxX. */
  lemma ActivateAtEdgeWraps(g: seq<Row>, y: int)
    requires WellFormed(g) && 0 <= y <= MaxY
    ensures Alive(Activate(g, 0, y), MaxX, y)
  {
  }

  /** On an empty grid, activating (5, 5) leaves exactly the square (4, 4)..(6, 6)
      alive. */
  lemma ActivateOnEmpty(g: seq<Row>)
    requires WellFormed(g) && AllDead(g)
    ensures forall a, b :: InGrid(a, b) ==>
      (Alive(Activate(g, 5, 5), a, b) <==> 4 <= a <= 6 && 4 <= b <= 6)
  {
  }
}
