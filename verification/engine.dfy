/** The game-state engine: the board, the score, the game-over flag and the active
    piece, and the transitions the window drives: start, the timer tick and the four
    handled keys. The drawing, the timer itself and the dialogs are not modelled;
    the random shape choice arrives as a shape index. */
module Engine {
  import opened Board
  import opened Pieces
  import opened Collision
  import opened RowClear

  datatype Option<T> = None | Some(value: T)

  /** The engine state. `piece` is None only before the first start, when the window
      has not yet chosen any template. */
  datatype Game = Game(grid: Grid, score: int, isGameOver: bool, piece: Option<Piece>)

  /** The keys the window reacts to; every other key is `Other`. */
  datatype Key = Left | Right | Down | Space | Other

  /** The state of a newly constructed window. */
  function Initial(): Game
  {
    Game(EmptyGrid(), 0, false, None)
  }

  /** A game is in progress: a piece exists and the game has not ended. */
  predicate Running(g: Game)
  {
    !g.isGameOver && g.piece.Some?
  }

  predicate ScoreOk(score: int)
  {
    score >= 0 && score % 100 == 0
  }

  /** The invariant of every reachable state: a 0/1 grid of the fixed size, a score
      that is a non-negative multiple of 100, a catalog template for the piece, and,
      while a game runs, the piece lying on the board over empty cells only. */
  predicate Valid(g: Game)
  {
    && WellFormed(g.grid)
    && ScoreOk(g.score)
    && (g.isGameOver ==> g.piece.Some?)
    && (g.piece.Some? ==> g.piece.value.blocks in Shapes)
    && (Running(g) ==> Fits(g.grid, g.piece.value))
  }

  /** Empties the grid, zeroes the score and clears the game-over flag. The piece
      fields are left as they are. */
  function ResetGame(g: Game): (r: Game)
    ensures WellFormed(r.grid)
    ensures forall y, x :: 0 <= y < Rows && 0 <= x < Columns ==> r.grid[y][x] == 0
    ensures r.score == 0 && !r.isGameOver && r.piece == g.piece
  {
    EmptyGridFacts();
    g.(grid := EmptyGrid(), score := 0, isGameOver := false)
  }

  predicate Occupied(grid: Grid, c: Point)
    requires Dimensions(grid) && InBounds(c)
  {
    grid[c.y][c.x] == 1
  }

  /** Sets cell `c` to occupied. */
  function Mark(grid: Grid, c: Point): Grid
    requires Dimensions(grid) && InBounds(c)
  {
    grid[c.y := grid[c.y][c.x := 1]]
  }

  /** The spawn test: some block on row 0 or below lands on an occupied cell. Blocks
      above the top row are not looked up. */
  predicate SpawnBlocked(grid: Grid, p: Piece)
    requires Dimensions(grid)
    requires forall i :: 0 <= i < |p.blocks| && Cell(p, i).y >= 0 ==> InBounds(Cell(p, i))
  {
    exists i :: 0 <= i < |p.blocks| && Cell(p, i).y >= 0 && Occupied(grid, Cell(p, i))
  }

  /** Spawns template `k` at the spawn point unless the game is over; the game ends
      when the new piece would overlap occupied cells. The piece fields are set before
      the test, so a game that ends this way keeps the blocked piece. */
  function SpawnShape(g: Game, k: int): (r: Game)
    requires WellFormed(g.grid) && IsShapeIndex(k)
    ensures r.grid == g.grid && r.score == g.score
    ensures g.isGameOver ==> r == g
    ensures !g.isGameOver ==> r.piece == Some(Piece(SpawnPoint, Shapes[k]))
    ensures !g.isGameOver ==> (r.isGameOver <==> Collides(g.grid, Piece(SpawnPoint, Shapes[k])))
    ensures !g.isGameOver && !r.isGameOver ==> Fits(g.grid, Piece(SpawnPoint, Shapes[k]))
    ensures ScoreOk(g.score) && (g.isGameOver ==> Valid(g)) ==> Valid(r)
  {
    if g.isGameOver then g
    else
      var p := Piece(SpawnPoint, Shapes[k]);
      SpawnCellsInBounds(k);
      g.(piece := Some(p), isGameOver := SpawnBlocked(g.grid, p))
  }

  /** Tries to move the piece by (dx, dy): the result says whether it moved. Only the
      anchor can change, and it changes by exactly (dx, dy) or not at all. */
  function MoveShape(g: Game, dx: int, dy: int): (r: (bool, Game))
    requires Dimensions(g.grid) && g.piece.Some?
    ensures r.1.grid == g.grid && r.1.score == g.score && r.1.isGameOver == g.isGameOver
    ensures r.0 ==> r.1.piece == Some(Translate(g.piece.value, dx, dy))
    ensures !r.0 ==> r.1 == g
    ensures r.0 <==> !Collides(g.grid, Translate(g.piece.value, dx, dy))
    ensures Valid(g) && Running(g) && dy >= 0 ==> (r.0 <==> Fits(g.grid, Translate(g.piece.value, dx, dy)))
    ensures Valid(g) && dy >= 0 ==> Valid(r.1)
  {
    var q := Translate(g.piece.value, dx, dy);
    FitsIffNoCollision(g.grid, q);
    if Collides(g.grid, q) then (false, g) else (true, g.(piece := Some(q)))
  }

  /** Marks each block on row 0 or below as occupied, one block after the other. The
      result differs from `grid` exactly on the cells the piece covers. */
  function PlaceBlocks(grid: Grid, pos: Point, blocks: seq<Point>): (r: Grid)
    requires WellFormed(grid)
    requires forall i :: 0 <= i < |blocks| && Cell(Piece(pos, blocks), i).y >= 0 ==> InBounds(Cell(Piece(pos, blocks), i))
    ensures WellFormed(r)
    ensures forall y, x :: 0 <= y < Rows && 0 <= x < Columns ==>
              r[y][x] == if Covers(Piece(pos, blocks), Point(x, y)) then 1 else grid[y][x]
    decreases |blocks|
  {
    if |blocks| == 0 then grid
    else
      var c := Cell(Piece(pos, blocks), 0);
      var marked := if c.y >= 0 then Mark(grid, c) else grid;
      CoversSplit(pos, blocks);
      assert forall i :: 0 <= i < |blocks| - 1 ==> Cell(Piece(pos, blocks[1..]), i) == Cell(Piece(pos, blocks), i + 1);
      PlaceBlocks(marked, pos, blocks[1..])
  }

  /** A piece covers a cell when its first block does or the rest of it does. */
  lemma CoversSplit(pos: Point, blocks: seq<Point>)
    requires |blocks| > 0
    ensures forall c :: Covers(Piece(pos, blocks), c) <==>
              c == Cell(Piece(pos, blocks), 0) || Covers(Piece(pos, blocks[1..]), c)
  {
    var p := Piece(pos, blocks);
    var q := Piece(pos, blocks[1..]);
    forall c
      ensures Covers(p, c) <==> c == Cell(p, 0) || Covers(q, c)
    {
      if Covers(p, c) && c != Cell(p, 0) {
        var i :| 0 <= i < |blocks| && Cell(p, i) == c;
        assert Cell(q, i - 1) == c;
      }
      if Covers(q, c) {
        var i :| 0 <= i < |blocks| - 1 && Cell(q, i) == c;
        assert Cell(p, i + 1) == c;
      }
    }
  }

  /** Locks the piece into the grid: exactly the cells it covers become occupied. */
  function PlaceShape(g: Game): (r: Game)
    requires Valid(g) && Running(g)
    ensures WellFormed(r.grid)
    ensures forall y, x :: 0 <= y < Rows && 0 <= x < Columns ==>
              r.grid[y][x] == if Covers(g.piece.value, Point(x, y)) then 1 else g.grid[y][x]
    ensures r.score == g.score && r.isGameOver == g.isGameOver && r.piece == g.piece
  {
    var p := g.piece.value;
    g.(grid := PlaceBlocks(g.grid, p.pos, p.blocks))
  }

  /** One pass of row clearing; every cleared row is worth 100 points. */
  function ClearFullRows(g: Game): (r: Game)
    requires WellFormed(g.grid)
    ensures WellFormed(r.grid)
    ensures r.score - g.score == 100 * ClearRows(g.grid).1
    ensures ScoreOk(g.score) ==> ScoreOk(r.score)
    ensures r.isGameOver == g.isGameOver && r.piece == g.piece
  {
    var cleared := ClearRows(g.grid);
    ScoreStep(g.score, cleared.1);
    g.(grid := cleared.0, score := g.score + 100 * cleared.1)
  }

  /** Adding whole clears keeps the score a non-negative multiple of 100. */
  lemma ScoreStep(score: int, n: nat)
    ensures ScoreOk(score) ==> ScoreOk(score + 100 * n)
  {
    if ScoreOk(score) {
      var q := score / 100;
      assert score + 100 * n == 100 * (q + n);
    }
  }

  /** One timer tick: the piece falls one row if it can; otherwise it is locked in,
      full rows are cleared and template `k` is spawned. */
  function Tick(g: Game, k: int): (r: Game)
    requires Valid(g) && Running(g) && IsShapeIndex(k)
    ensures Valid(r)
    ensures Fits(g.grid, Translate(g.piece.value, 0, 1)) ==> r == g.(piece := Some(Translate(g.piece.value, 0, 1)))
    ensures !Fits(g.grid, Translate(g.piece.value, 0, 1)) ==> r.piece == Some(Piece(SpawnPoint, Shapes[k]))
    ensures g.score <= r.score <= g.score + 100 * Rows
  {
    var step := MoveShape(g, 0, 1);
    if step.0 then step.1
    else LockIn(g, k)
  }

  /** A tick in which the piece cannot fall is exactly the lock-in. */
  lemma TickLocksIn(g: Game, k: int)
    requires Valid(g) && Running(g) && IsShapeIndex(k)
    requires !Fits(g.grid, Translate(g.piece.value, 0, 1))
    ensures Tick(g, k) == LockIn(g, k)
  {
  }

  /** The tick's other branch: place the piece, clear rows, spawn template `k`. The
      new piece either fits or ends the game, and the score grows by at most one
      clear per row. */
  function LockIn(g: Game, k: int): (r: Game)
    requires Valid(g) && Running(g) && IsShapeIndex(k)
    ensures Valid(r)
    ensures r.piece == Some(Piece(SpawnPoint, Shapes[k]))
    ensures r.grid == ClearRows(PlaceShape(g).grid).0
    ensures r.score == g.score + 100 * ClearRows(PlaceShape(g).grid).1
    ensures r.isGameOver <==> Collides(r.grid, Piece(SpawnPoint, Shapes[k]))
    ensures r.score > g.score <==> exists y :: 0 <= y < Rows && Full(PlaceShape(g).grid[y])
    ensures g.score <= r.score <= g.score + 100 * FullCount(PlaceShape(g).grid)
  {
    var placed := PlaceShape(g);
    ClearsIffSomeFull(placed.grid, Rows - 1);
    ClearsAtMostFullRows(placed.grid, Rows - 1);
    assert placed.grid[..Rows] == placed.grid;
    var cleared := ClearFullRows(placed);
    assert !cleared.isGameOver && ScoreOk(cleared.score);
    SpawnShape(cleared, k)
  }

  /** The lowest fall the piece can make: it moves down one row at a time until the
      next row down would collide. Nothing is locked in. */
  function HardDrop(g: Game): (r: Game)
    requires Valid(g) && Running(g)
    ensures Valid(r) && Running(r)
    ensures r.grid == g.grid && r.score == g.score
    ensures r.piece.value.blocks == g.piece.value.blocks && r.piece.value.pos.x == g.piece.value.pos.x
    ensures r.piece.value.pos.y >= g.piece.value.pos.y
    ensures Collides(r.grid, Translate(r.piece.value, 0, 1))
    ensures forall y :: g.piece.value.pos.y <= y <= r.piece.value.pos.y ==> Fits(g.grid, AtRow(g.piece.value, y))
    decreases Rows - g.piece.value.pos.y
  {
    AnchorAboveFloor(g);
    var step := MoveShape(g, 0, 1);
    if step.0 then
      var r := HardDrop(step.1);
      assert AtRow(g.piece.value, g.piece.value.pos.y) == g.piece.value;
      assert forall y :: AtRow(step.1.piece.value, y) == AtRow(g.piece.value, y);
      r
    else g
  }

  /** While a game runs, the anchor is on the board: every template has a block at
      offset row 0. */
  lemma AnchorAboveFloor(g: Game)
    requires Valid(g) && Running(g)
    ensures 0 <= g.piece.value.pos.y < Rows
  {
    CatalogFacts();
    var p := g.piece.value;
    assert InBounds(Cell(p, 0));
  }

  /** The space key's loop: keep moving down while the move succeeds. */
  method HardDropLoop(g0: Game) returns (g: Game)
    requires Valid(g0) && Running(g0)
    ensures g == HardDrop(g0)
  {
    g := g0;
    var step := MoveShape(g, 0, 1);
    while step.0
      invariant Valid(g) && Running(g)
      invariant step == MoveShape(g, 0, 1)
      invariant HardDrop(g) == HardDrop(g0)
      decreases Rows - g.piece.value.pos.y
    {
      AnchorAboveFloor(g);
      g := step.1;
      step := MoveShape(g, 0, 1);
    }
  }

  /** The key handler: nothing happens once the game is over; otherwise left, right
      and down try one move, and space drops the piece as far as it goes. No key
      locks the piece in or changes the grid or the score. Before the first start
      the four handled keys would dereference a missing piece, so they require one. */
  function KeyDown(g: Game, key: Key): (r: Game)
    requires Valid(g)
    requires g.isGameOver || key == Other || g.piece.Some?
    ensures Valid(r)
    ensures r.grid == g.grid && r.score == g.score && r.isGameOver == g.isGameOver
    ensures g.isGameOver || key == Other ==> r == g
    ensures r.piece.Some? == g.piece.Some?
    ensures r.piece.Some? ==> r.piece.value.blocks == g.piece.value.blocks
  {
    if g.isGameOver then g
    else
      match key
      case Left => MoveShape(g, -1, 0).1
      case Right => MoveShape(g, 1, 0).1
      case Down => MoveShape(g, 0, 1).1
      case Space => HardDrop(g)
      case Other => g
  }

  /** The start button: reset, then spawn template `k`. The spawn always succeeds
      because the grid is empty. */
  function Start(g: Game, k: int): (r: Game)
    requires IsShapeIndex(k)
    ensures Valid(r) && Running(r)
    ensures r.score == 0
    ensures forall y, x :: 0 <= y < Rows && 0 <= x < Columns ==> r.grid[y][x] == 0
    ensures r.piece == Some(Piece(SpawnPoint, Shapes[k]))
  {
    var reset := ResetGame(g);
    SpawnCellsInBounds(k);
    SpawnShape(reset, k)
  }
}
