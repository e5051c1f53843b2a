/** The collision test: would the active piece, shifted by (dx, dy), leave the
    playfield or overlap an occupied cell? */
module Collision {
  import opened Board
  import opened Pieces

  /** A cell the piece may not occupy: left of column 0, right of the last column,
      below the last row, or an occupied grid cell. The grid is consulted only for
      rows 0 and below, so a cell above the top row meets nothing but the side walls;
      the tests before the grid lookup are what keep that lookup in range. */
  predicate Blocked(grid: Grid, c: Point)
    requires Dimensions(grid)
  {
    c.x < 0 || c.x >= Columns || c.y >= Rows || (c.y >= 0 && grid[c.y][c.x] == 1)
  }

  /** Some cell of the piece is blocked. */
  predicate Collides(grid: Grid, p: Piece)
    requires Dimensions(grid)
  {
    exists i :: 0 <= i < |p.blocks| && Blocked(grid, Cell(p, i))
  }

  /** Every cell of the piece is on the board and on an empty grid cell. */
  predicate Fits(grid: Grid, p: Piece)
    requires Dimensions(grid)
  {
    forall i :: 0 <= i < |p.blocks| ==> InBounds(Cell(p, i)) && grid[Cell(p, i).y][Cell(p, i).x] == 0
  }

  /** The collision scan over the template, block by block, stopping at the first
      blocked cell. It tests exactly the piece translated by (dx, dy). */
  method CheckCollision(grid: Grid, p: Piece, dx: int, dy: int) returns (r: bool)
    requires Dimensions(grid)
    ensures r <==> exists i :: 0 <= i < |p.blocks| && Blocked(grid, Point(Cell(p, i).x + dx, Cell(p, i).y + dy))
    ensures r <==> Collides(grid, Translate(p, dx, dy))
  {
    var i := 0;
    while i < |p.blocks|
      invariant 0 <= i <= |p.blocks|
      invariant forall j :: 0 <= j < i ==> !Blocked(grid, Point(Cell(p, j).x + dx, Cell(p, j).y + dy))
    {
      var block := p.blocks[i];
      var x := p.pos.x + block.x + dx;
      var y := p.pos.y + block.y + dy;
      if x < 0 || x >= Columns || y >= Rows || (y >= 0 && grid[y][x] == 1) {
        assert Blocked(grid, Point(Cell(p, i).x + dx, Cell(p, i).y + dy));
        return true;
      }
      i := i + 1;
    }
    return false;
  }

  /** On a 0/1 grid, a piece fits exactly when it does not collide and no cell of it
      is above the top row. */
  lemma FitsIffNoCollision(grid: Grid, p: Piece)
    requires Dimensions(grid)
    ensures Binary(grid) ==>
              (Fits(grid, p) <==> !Collides(grid, p) && forall i :: 0 <= i < |p.blocks| ==> Cell(p, i).y >= 0)
  {
    if Binary(grid) && !Collides(grid, p) && forall i :: 0 <= i < |p.blocks| ==> Cell(p, i).y >= 0 {
      forall i | 0 <= i < |p.blocks|
        ensures InBounds(Cell(p, i)) && grid[Cell(p, i).y][Cell(p, i).x] == 0
      {
        assert !Blocked(grid, Cell(p, i));
      }
    }
    if Fits(grid, p) {
      forall i | 0 <= i < |p.blocks|
        ensures !Blocked(grid, Cell(p, i))
      {
        assert InBounds(Cell(p, i));
      }
    }
  }
}
