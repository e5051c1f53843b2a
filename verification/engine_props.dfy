/** Properties of the engine that relate several operations or pin down a scenario:
    what each key may change, where a hard drop stops, when a lock-in scores, and
    when a spawn ends the game. */
module GameProperties {
  import opened Board
  import opened Pieces
  import opened Collision
  import opened RowClear
  import opened Engine

  /** The left and right keys move the piece by exactly one column or leave it where
      it is; they never change its row. The move happens exactly when the shifted
      piece lies on the board over empty cells. */
  lemma SideMoveChangesOnlyColumn(g: Game, key: Key)
    requires Valid(g) && Running(g)
    requires key == Left || key == Right
    ensures var dx := if key == Left then -1 else 1;
            var p := g.piece.value;
            var q := KeyDown(g, key).piece.value;
            && q.pos.y == p.pos.y
            && (q.pos.x == p.pos.x + dx <==> Fits(g.grid, Translate(p, dx, 0)))
            && (q.pos.x == p.pos.x <==> !Fits(g.grid, Translate(p, dx, 0)))
  {
  }

  /** The down key tries one move down and does nothing more: the grid and the score
      are untouched even when the piece cannot fall, so it is never locked in here. */
  lemma SoftDropNeverLocks(g: Game)
    requires Valid(g) && Running(g)
    ensures var r := KeyDown(g, Down);
            var p := g.piece.value;
            && r.grid == g.grid && r.score == g.score && Running(r)
            && r.piece.value.pos.x == p.pos.x
            && (r.piece.value.pos.y == p.pos.y + 1 <==> Fits(g.grid, Translate(p, 0, 1)))
            && (r.piece.value.pos.y == p.pos.y <==> !Fits(g.grid, Translate(p, 0, 1)))
  {
  }

  /** The space key leaves the piece resting: one more row down would collide. The
      grid is not changed, so the piece is locked only by a later tick. */
  lemma HardDropRests(g: Game)
    requires Valid(g) && Running(g)
    ensures var r := KeyDown(g, Space);
            && r.grid == g.grid && Running(r)
            && Collides(r.grid, Translate(r.piece.value, 0, 1))
  {
  }

  /** Locking a piece in never empties a cell, so a row full before stays full. */
  lemma PlacingKeepsFullRows(g: Game, y: int)
    requires Valid(g) && Running(g)
    requires 0 <= y < Rows && Full(g.grid[y])
    ensures Full(PlaceShape(g).grid[y])
  {
    var placed := PlaceShape(g).grid;
    forall x | 0 <= x < |placed[y]|
      ensures placed[y][x] != 0
    {
      assert g.grid[y][x] != 0;
    }
  }

  /** A lock-in scores whenever the grid already held a full row, even if the piece
      completes nothing: a row left full by an earlier single pass is cleared, and
      paid for, at the next lock-in (which a tick performs when the piece cannot fall,
      by `TickLocksIn`). */
  lemma LeftoverFullRowScores(g: Game, k: int, y: int)
    requires Valid(g) && Running(g) && IsShapeIndex(k)
    requires 0 <= y < Rows && Full(g.grid[y])
    ensures LockIn(g, k).score > g.score
  {
    PlacingKeepsFullRows(g, y);
  }

  /** The largest row offset of a template. */
  function LowestOffset(blocks: seq<Point>): (m: int)
    requires |blocks| > 0
    ensures forall i :: 0 <= i < |blocks| ==> blocks[i].y <= m
    ensures exists i :: 0 <= i < |blocks| && blocks[i].y == m
  {
    if |blocks| == 1 then blocks[0].y
    else
      var rest := LowestOffset(blocks[1..]);
      assert forall i :: 1 <= i < |blocks| ==> blocks[i] == blocks[1..][i - 1];
      if blocks[0].y >= rest then blocks[0].y else rest
  }

  /** On an empty grid, a piece that fits but cannot move one row down has its lowest
      block on the last row: there the only obstacle is the floor. */
  lemma RestingRowOnEmptyGrid(grid: Grid, p: Piece)
    requires WellFormed(grid) && |p.blocks| > 0
    requires forall y, x :: 0 <= y < Rows && 0 <= x < Columns ==> grid[y][x] == 0
    requires Fits(grid, p) && Collides(grid, Translate(p, 0, 1))
    ensures p.pos.y == Rows - 1 - LowestOffset(p.blocks)
  {
    var m := LowestOffset(p.blocks);
    var j :| 0 <= j < |p.blocks| && p.blocks[j].y == m;
    assert InBounds(Cell(p, j));
    var below := Translate(p, 0, 1);
    var i :| 0 <= i < |below.blocks| && Blocked(grid, Cell(below, i));
    assert InBounds(Cell(p, i));
  }

  /** The square spawned by a fresh start falls to anchor row 18: its two rows then
      fill rows 18 and 19. */
  lemma SquareHardDropAfterStart(g: Game)
    ensures HardDrop(Start(g, 0)).piece.value.pos == Point(Columns / 2, Rows - 2)
  {
    var s := Start(g, 0);
    var r := HardDrop(s);
    RestingRowOnEmptyGrid(r.grid, r.piece.value);
    assert LowestOffset(Shapes[0]) == 1;
  }

  /** Spawning onto an empty grid never ends the game: the new piece fits. */
  lemma SpawnOnEmptyGridSucceeds(g: Game, k: int)
    requires WellFormed(g.grid) && !g.isGameOver && IsShapeIndex(k)
    requires forall y, x :: 0 <= y < Rows && 0 <= x < Columns ==> g.grid[y][x] == 0
    ensures !SpawnShape(g, k).isGameOver
    ensures Fits(g.grid, SpawnShape(g, k).piece.value)
  {
    SpawnCellsInBounds(k);
    var p := Piece(SpawnPoint, Shapes[k]);
    forall i | 0 <= i < |p.blocks|
      ensures !Blocked(g.grid, Cell(p, i))
    {
      assert InBounds(Cell(p, i));
    }
  }

  /** When the spawn cell (row 0, middle column) is occupied, every template ends the
      game at once, because every template covers its anchor; the score is kept. */
  lemma OccupiedSpawnCellEndsGame(g: Game, k: int)
    requires WellFormed(g.grid) && !g.isGameOver && IsShapeIndex(k)
    requires g.grid[0][Columns / 2] == 1
    ensures SpawnShape(g, k).isGameOver
    ensures SpawnShape(g, k).score == g.score
  {
    SpawnCellsInBounds(k);
    var p := Piece(SpawnPoint, Shapes[k]);
    var i :| 0 <= i < |p.blocks| && Cell(p, i) == SpawnPoint;
    assert Blocked(g.grid, Cell(p, i));
  }

  /** Once the game is over, neither a key nor a spawn changes anything. */
  lemma GameOverFreezes(g: Game, key: Key, k: int)
    requires Valid(g) && g.isGameOver && IsShapeIndex(k)
    ensures KeyDown(g, key) == g
    ensures SpawnShape(g, k) == g
  {
  }
}
