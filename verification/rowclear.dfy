/** Row clearing: one pass over the rows from the bottom (Rows - 1) to the top (0).
    Whenever the row under the scan is full, every row above it moves down by one,
    row 0 becomes empty, and the pass goes on with the next row up. The row index is
    not examined again after a shift, so a full row that a shift moves into the
    index just cleared is not cleared in the same pass. */
module RowClear {
  import opened Board

  /** Removes row `i`: rows 1..i take the rows above them, row 0 becomes empty, and
      the rows below `i` stay where they are. */
  function ShiftDown(grid: Grid, i: int): (r: Grid)
    requires Dimensions(grid) && 0 <= i < Rows
    ensures Dimensions(r)
    ensures r[0] == EmptyRow()
    ensures forall k :: 1 <= k <= i ==> r[k] == grid[k - 1]
    ensures forall k :: i < k < Rows ==> r[k] == grid[k]
    ensures Binary(grid) ==> Binary(r)
  {
    [EmptyRow()] + grid[..i] + grid[i + 1..]
  }

  /** The rest of the pass, scanning rows i, i - 1, ..., 0 of `grid`: the final grid
      and the number of rows cleared. */
  function ClearFrom(grid: Grid, i: int): (r: (Grid, nat))
    requires Dimensions(grid) && -1 <= i < Rows
    ensures Dimensions(r.0)
    ensures r.1 <= i + 1
    ensures forall k :: i < k < Rows ==> r.0[k] == grid[k]
    ensures Binary(grid) ==> Binary(r.0)
    decreases i + 1
  {
    if i < 0 then (grid, 0)
    else if Full(grid[i]) then
      var rest := ClearFrom(ShiftDown(grid, i), i - 1);
      (rest.0, rest.1 + 1)
    else
      ClearFrom(grid, i - 1)
  }

  /** The whole pass, from the bottom row up. */
  function ClearRows(grid: Grid): (r: (Grid, nat))
    requires Dimensions(grid)
    ensures Dimensions(r.0) && r.1 <= Rows
    ensures Binary(grid) ==> Binary(r.0)
  {
    ClearFrom(grid, Rows - 1)
  }

  /** Number of full rows in a sequence of rows. */
  function FullCount(rows: seq<Row>): nat
  {
    if |rows| == 0 then 0
    else FullCount(rows[..|rows| - 1]) + (if Full(rows[|rows| - 1]) then 1 else 0)
  }

  /** The imperative pass: for each row from the bottom, a column scan that stops at
      the first empty cell, then, for a full row, the row-by-row shift, the emptying
      of row 0 and 100 more points. */
  method ClearRowsScan(grid0: Grid, score0: int) returns (grid: Grid, score: int)
    requires Dimensions(grid0)
    ensures grid == ClearRows(grid0).0
    ensures score == score0 + 100 * ClearRows(grid0).1
  {
    grid := grid0;
    score := score0;
    ghost var cleared := 0;
    var i := Rows - 1;
    while i >= 0
      invariant -1 <= i < Rows
      invariant Dimensions(grid)
      invariant ClearFrom(grid, i).0 == ClearRows(grid0).0
      invariant cleared + ClearFrom(grid, i).1 == ClearRows(grid0).1
      invariant score == score0 + 100 * cleared
    {
      var isFull := true;
      var j := 0;
      while j < Columns
        invariant 0 <= j <= Columns
        invariant isFull
        invariant forall c :: 0 <= c < j ==> grid[i][c] != 0
      {
        if grid[i][j] == 0 {
          isFull := false;
          break;
        }
        j := j + 1;
      }
      assert isFull <==> Full(grid[i]);
      if isFull {
        ghost var before := grid;
        var k := i;
        while k > 0
          invariant 0 <= k <= i
          invariant Dimensions(grid)
          invariant forall r :: 0 <= r <= k ==> grid[r] == before[r]
          invariant forall r :: k < r <= i ==> grid[r] == before[r - 1]
          invariant forall r :: i < r < Rows ==> grid[r] == before[r]
        {
          grid := grid[k := grid[k - 1]];
          k := k - 1;
        }
        grid := grid[0 := EmptyRow()];
        assert grid == ShiftDown(before, i);
        score := score + 100;
        cleared := cleared + 1;
      }
      i := i - 1;
    }
  }

  /** Some row is cleared exactly when some scanned row is full to begin with. */
  lemma {:induction false} ClearsIffSomeFull(grid: Grid, i: int)
    requires Dimensions(grid) && -1 <= i < Rows
    ensures ClearFrom(grid, i).1 > 0 <==> exists k :: 0 <= k <= i && Full(grid[k])
    decreases i + 1
  {
    if i >= 0 && !Full(grid[i]) {
      ClearsIffSomeFull(grid, i - 1);
      if exists k :: 0 <= k <= i && Full(grid[k]) {
        var k :| 0 <= k <= i && Full(grid[k]);
        assert k < i;
      }
    }
  }

  /** With no full row among rows 0..i the pass changes nothing. */
  lemma {:induction false} NoFullRowNoChange(grid: Grid, i: int)
    requires Dimensions(grid) && -1 <= i < Rows
    requires forall k :: 0 <= k <= i ==> !Full(grid[k])
    ensures ClearFrom(grid, i) == (grid, 0)
    decreases i + 1
  {
    if i >= 0 {
      NoFullRowNoChange(grid, i - 1);
    }
  }

  /** Rows that are not full are passed over without any change to the grid. */
  lemma {:induction false} SkipNonFullRows(grid: Grid, i: int, j: int)
    requires Dimensions(grid) && -1 <= j <= i < Rows
    requires forall k :: j < k <= i ==> !Full(grid[k])
    ensures ClearFrom(grid, i) == ClearFrom(grid, j)
    decreases i - j
  {
    if j < i {
      SkipNonFullRows(grid, i - 1, j);
    }
  }

  /** When `r` is the lowest full row and no row above `r - 1` is full, the pass clears
      row `r` alone: one shift and one count, whether or not row `r - 1` is full. */
  lemma ClearsLowestFullRowOnly(grid: Grid, r: int)
    requires Dimensions(grid) && 0 <= r < Rows
    requires Full(grid[r])
    requires forall k :: r < k < Rows ==> !Full(grid[k])
    requires forall k :: 0 <= k < r - 1 ==> !Full(grid[k])
    ensures ClearRows(grid) == (ShiftDown(grid, r), 1)
  {
    SkipNonFullRows(grid, Rows - 1, r);
    var s := ShiftDown(grid, r);
    EmptyGridFacts();
    assert forall k :: 0 <= k <= r - 1 ==> !Full(s[k]) by {
      forall k | 0 <= k <= r - 1
        ensures !Full(s[k])
      {
        if k > 0 {
          assert s[k] == grid[k - 1];
        }
      }
    }
    NoFullRowNoChange(s, r - 1);
  }

  /** A single full row is removed: the rows above it move down one, row 0 becomes
      empty, and exactly one clear (100 points) is counted. */
  lemma SingleFullRowCleared(grid: Grid, r: int)
    requires Dimensions(grid) && 0 <= r < Rows
    requires Full(grid[r])
    requires forall k :: 0 <= k < Rows && k != r ==> !Full(grid[k])
    ensures ClearRows(grid) == (ShiftDown(grid, r), 1)
  {
    ClearsLowestFullRowOnly(grid, r);
  }

  /** Two adjacent full rows with no other full row are NOT both cleared by one pass:
      the upper one drops into the index just cleared, which the pass does not examine
      again, so one clear is counted and a full row remains at index `r`. */
  lemma AdjacentFullRowsClearedOnce(grid: Grid, r: int)
    requires Dimensions(grid) && 1 <= r < Rows
    requires Full(grid[r]) && Full(grid[r - 1])
    requires forall k :: 0 <= k < Rows && k != r && k != r - 1 ==> !Full(grid[k])
    ensures ClearRows(grid).1 == 1
    ensures Full(ClearRows(grid).0[r])
  {
    ClearsLowestFullRowOnly(grid, r);
  }

  /** Prepending a row that is not full does not change the number of full rows. */
  lemma {:induction false} FullCountPrepend(e: Row, rows: seq<Row>)
    requires !Full(e)
    ensures FullCount([e] + rows) == FullCount(rows)
    decreases |rows|
  {
    if |rows| > 0 {
      var front := rows[..|rows| - 1];
      assert ([e] + rows)[..|rows|] == [e] + front;
      FullCountPrepend(e, front);
    }
  }

  /** A pass never clears more rows than the scanned part of the grid held full rows. */
  lemma {:induction false} ClearsAtMostFullRows(grid: Grid, i: int)
    requires Dimensions(grid) && -1 <= i < Rows
    ensures ClearFrom(grid, i).1 <= FullCount(grid[..i + 1])
    decreases i + 1
  {
    if i >= 0 {
      assert grid[..i + 1][..i] == grid[..i];
      if Full(grid[i]) {
        var s := ShiftDown(grid, i);
        ClearsAtMostFullRows(s, i - 1);
        EmptyGridFacts();
        if i > 0 {
          assert s[..i] == [EmptyRow()] + grid[..i - 1];
          FullCountPrepend(EmptyRow(), grid[..i - 1]);
          assert grid[..i][..i - 1] == grid[..i - 1];
        }
      } else {
        ClearsAtMostFullRows(grid, i - 1);
      }
    }
  }
}
