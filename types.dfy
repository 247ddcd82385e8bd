// The shapes of the game's data: coordinates, the mutable grid unit, the grid,
// and the value snapshot of a grid that every specification is stated on.
module Types {
  import opened Enums

  datatype Coords = Coords(x: int, y: int)

  /** One cell of the field. Its coordinates never change; its value and mask
      are updated in place by the generator, the reveal engine and the click
      handlers, and a grid copy shares the same unit objects. */
  class GridUnit {
    const coords: Coords
    var cellValue: CellValue
    var cellMask: CellMask

    constructor (coords: Coords, cellValue: CellValue, cellMask: CellMask)
      ensures this.coords == coords
      ensures this.cellValue == cellValue && this.cellMask == cellMask
    {
      this.coords := coords;
      this.cellValue := cellValue;
      this.cellMask := cellMask;
    }
  }

  /** Rows of unit references. No row is written after the grid is built, so a
      row is an immutable sequence; the units it refers to are mutable. */
  type Grid = seq<seq<GridUnit>>

  /** What a unit holds at one moment. */
  datatype Cell = Cell(value: CellValue, mask: CellMask)

  /** A snapshot of a grid: row y, column x. */
  type Board = seq<seq<Cell>>

  /** A height x width grid whose every unit carries its own position. Because
      coords is constant, two different positions never hold the same unit. */
  ghost predicate Shaped(g: Grid, w: nat, h: nat) {
    && |g| == h
    && (forall y :: 0 <= y < h ==> |g[y]| == w)
    && (forall y, x :: 0 <= y < h && 0 <= x < w ==> g[y][x].coords == Coords(x, y))
  }

  ghost function Units(g: Grid): set<GridUnit> {
    set y, x | 0 <= y < |g| && 0 <= x < |g[y]| :: g[y][x]
  }

  /** The snapshot of the values and masks the grid's units hold now. */
  ghost function View(g: Grid): (b: Board)
    reads Units(g)
    ensures |b| == |g|
    ensures forall y :: 0 <= y < |g| ==> |b[y]| == |g[y]|
    ensures forall y, x :: 0 <= y < |g| && 0 <= x < |g[y]| ==>
              b[y][x] == Cell(g[y][x].cellValue, g[y][x].cellMask)
  {
    seq(|g|, y requires 0 <= y < |g| reads Units(g) =>
      seq(|g[y]|, x requires 0 <= x < |g[y]| reads Units(g) =>
        Cell(g[y][x].cellValue, g[y][x].cellMask)))
  }

  /** A board of h rows of w cells. */
  ghost predicate IsRect(b: Board, w: nat, h: nat) {
    |b| == h && forall y :: 0 <= y < h ==> |b[y]| == w
  }

  predicate InBounds(c: Coords, w: int, h: int) {
    0 <= c.x < w && 0 <= c.y < h
  }

  /** The board with the cell at c replaced. */
  ghost function Put(b: Board, c: Coords, cell: Cell): (r: Board)
    requires 0 <= c.y < |b| && 0 <= c.x < |b[c.y]|
    ensures |r| == |b| && forall y :: 0 <= y < |b| ==> |r[y]| == |b[y]|
    ensures forall y, x :: 0 <= y < |b| && 0 <= x < |b[y]| ==>
              r[y][x] == if Coords(x, y) == c then cell else b[y][x]
  {
    b[c.y := b[c.y][c.x := cell]]
  }

  lemma DistinctUnits(g: Grid, w: nat, h: nat, c: Coords, d: Coords)
    requires Shaped(g, w, h) && InBounds(c, w, h) && InBounds(d, w, h)
    requires g[c.y][c.x] == g[d.y][d.x]
    ensures c == d
  {
    assert g[c.y][c.x].coords == c && g[d.y][d.x].coords == d;
  }

  /** `field[y][x].cellMask = m`: only the cell at c changes. */
  method SetMask(g: Grid, c: Coords, m: CellMask, ghost w: nat, ghost h: nat)
    requires Shaped(g, w, h) && InBounds(c, w, h)
    modifies g[c.y][c.x]
    ensures View(g) == Put(old(View(g)), c, Cell(old(g[c.y][c.x].cellValue), m))
  {
    ghost var before := View(g);
    g[c.y][c.x].cellMask := m;
    forall y, x | 0 <= y < h && 0 <= x < w && Coords(x, y) != c
      ensures View(g)[y][x] == before[y][x]
    {
      if g[y][x] == g[c.y][c.x] {
        DistinctUnits(g, w, h, Coords(x, y), c);
      }
    }
    ghost var after := Put(before, c, Cell(old(g[c.y][c.x].cellValue), m));
    forall y | 0 <= y < h ensures View(g)[y] == after[y] {
      assert |View(g)[y]| == |after[y]| == w;
    }
  }

  /** `field[y][x].cellValue = v`: only the cell at c changes. */
  method SetValue(g: Grid, c: Coords, v: CellValue, ghost w: nat, ghost h: nat)
    requires Shaped(g, w, h) && InBounds(c, w, h)
    modifies g[c.y][c.x]
    ensures View(g) == Put(old(View(g)), c, Cell(v, old(g[c.y][c.x].cellMask)))
  {
    ghost var before := View(g);
    g[c.y][c.x].cellValue := v;
    forall y, x | 0 <= y < h && 0 <= x < w && Coords(x, y) != c
      ensures View(g)[y][x] == before[y][x]
    {
      if g[y][x] == g[c.y][c.x] {
        DistinctUnits(g, w, h, Coords(x, y), c);
      }
    }
    ghost var after := Put(before, c, Cell(v, old(g[c.y][c.x].cellMask)));
    forall y | 0 <= y < h ensures View(g)[y] == after[y] {
      assert |View(g)[y]| == |after[y]| == w;
    }
  }
}
