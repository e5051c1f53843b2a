/** The shape catalog and the active piece: an anchor position plus one of the seven
    fixed templates of four (column, row) offsets. Pieces never rotate. */
module Pieces {
  import opened Board

  /** An active piece: `pos` is the anchor, `blocks` the template offsets. */
  datatype Piece = Piece(pos: Point, blocks: seq<Point>)

  /** The seven templates, in catalog order: square, I, S, Z, T, L, J. */
  const Shapes: seq<seq<Point>> := [
    [Point(0, 0), Point(1, 0), Point(0, 1), Point(1, 1)],
    [Point(-1, 0), Point(0, 0), Point(1, 0), Point(2, 0)],
    [Point(0, 0), Point(-1, 0), Point(0, 1), Point(1, 1)],
    [Point(0, 0), Point(1, 0), Point(0, 1), Point(-1, 1)],
    [Point(0, 0), Point(-1, 0), Point(1, 0), Point(0, 1)],
    [Point(0, 0), Point(-1, 0), Point(1, 0), Point(-1, 1)],
    [Point(0, 0), Point(-1, 0), Point(1, 0), Point(1, 1)]
  ]

  /** Where every new piece is anchored: top row, middle column (integer division). */
  const SpawnPoint: Point := Point(Columns / 2, 0)

  /** The values a random draw over the catalog can produce. */
  predicate IsShapeIndex(k: int)
  {
    0 <= k < |Shapes|
  }

  /** Absolute position of block `i` of the piece. */
  function Cell(p: Piece, i: int): Point
    requires 0 <= i < |p.blocks|
  {
    Point(p.pos.x + p.blocks[i].x, p.pos.y + p.blocks[i].y)
  }

  /** The piece moved by `dx` columns and `dy` rows; its template is kept. */
  function Translate(p: Piece, dx: int, dy: int): (q: Piece)
    ensures q.blocks == p.blocks
    ensures forall i :: 0 <= i < |p.blocks| ==> Cell(q, i) == Point(Cell(p, i).x + dx, Cell(p, i).y + dy)
  {
    Piece(Point(p.pos.x + dx, p.pos.y + dy), p.blocks)
  }

  /** The piece with its anchor moved to row `y`, column and template kept. */
  function AtRow(p: Piece, y: int): Piece
  {
    Piece(Point(p.pos.x, y), p.blocks)
  }

  /** The piece covers cell `c`. */
  predicate Covers(p: Piece, c: Point)
  {
    exists i :: 0 <= i < |p.blocks| && Cell(p, i) == c
  }

  /** Every template has four offsets, columns in [-1, 2], rows in {0, 1}; its first
      offset lies on row 0 and every template contains the offset (0, 0). */
  lemma CatalogFacts()
    ensures |Shapes| == 7
    ensures forall k :: 0 <= k < |Shapes| ==> |Shapes[k]| == 4 && Shapes[k][0].y == 0 && Point(0, 0) in Shapes[k]
    ensures forall k, i :: 0 <= k < |Shapes| && 0 <= i < |Shapes[k]| ==>
              -1 <= Shapes[k][i].x <= 2 && 0 <= Shapes[k][i].y <= 1
  {
  }

  /** A freshly spawned piece lies inside the board: columns 4..7 and rows 0..1 on a
      10 x 20 board. */
  lemma SpawnCellsInBounds(k: int)
    requires IsShapeIndex(k)
    ensures forall i :: 0 <= i < |Shapes[k]| ==> InBounds(Cell(Piece(SpawnPoint, Shapes[k]), i))
    ensures Covers(Piece(SpawnPoint, Shapes[k]), SpawnPoint)
  {
    CatalogFacts();
    var p := Piece(SpawnPoint, Shapes[k]);
    var i :| 0 <= i < |Shapes[k]| && Shapes[k][i] == Point(0, 0);
    assert Cell(p, i) == SpawnPoint;
  }
}
