/** The playfield of the falling-block game: a fixed Rows x Columns grid of integer
    cells, 0 for an empty cell and 1 for an occupied one. The grid is indexed row
    first, `grid[y][x]`, with row 0 at the top and column 0 at the left. */
module Board {

  /** Board dimensions, fixed when the window is constructed. */
  const Rows: int := 20
  const Columns: int := 10

  /** A cell position: `x` is the column, `y` is the row. */
  datatype Point = Point(x: int, y: int)

  type Row = seq<int>
  type Grid = seq<Row>

  /** The grid has exactly Rows rows of exactly Columns cells each. */
  predicate Dimensions(grid: Grid)
  {
    && |grid| == Rows
    && forall y :: 0 <= y < |grid| ==> |grid[y]| == Columns
  }

  /** Every cell holds 0 or 1. */
  predicate Binary(grid: Grid)
    requires Dimensions(grid)
  {
    forall y, x :: 0 <= y < Rows && 0 <= x < Columns ==> grid[y][x] == 0 || grid[y][x] == 1
  }

  predicate WellFormed(grid: Grid)
  {
    Dimensions(grid) && Binary(grid)
  }

  predicate InBounds(c: Point)
  {
    0 <= c.x < Columns && 0 <= c.y < Rows
  }

  function EmptyRow(): Row
  {
    seq(Columns, _ => 0)
  }

  /** The grid of a freshly reset game: every cell empty. */
  function EmptyGrid(): Grid
  {
    seq(Rows, _ => EmptyRow())
  }

  /** A row is full when none of its cells is 0. */
  predicate Full(row: Row)
  {
    forall x :: 0 <= x < |row| ==> row[x] != 0
  }

  /** The empty grid is well formed and no row of it is full. */
  lemma EmptyGridFacts()
    ensures WellFormed(EmptyGrid())
    ensures forall y, x :: 0 <= y < Rows && 0 <= x < Columns ==> EmptyGrid()[y][x] == 0
    ensures !Full(EmptyRow())
  {
    assert EmptyRow()[0] == 0;
  }
}
