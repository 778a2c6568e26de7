/**
 * The playfield as a value: HEIGHT rows of WIDTH cells, row 0 at the top.
 * A cell is 0 (empty) or the shape id 1..7 of the piece that landed there.
 *
 * This module holds the meaning of the grid operations: the collision
 * predicate, the footprint written and erased by a piece, and the
 * compaction that drops full rows. The in-place versions in Playfield and
 * Pieces are proved equal to these functions.
 */
module Board {
  import opened Shapes

  /** PLAYFIELD_CELL_HEIGHT and PLAYFIELD_CELL_WIDTH. */
  const HEIGHT := 24
  const WIDTH := 16

  type Row = seq<int>
  type Grid = seq<Row>

  ghost predicate IsGrid(g: Grid) {
    |g| == HEIGHT && forall i :: 0 <= i < HEIGHT ==> |g[i]| == WIDTH
  }

  /** Every cell is empty or holds one of the seven shape ids. */
  ghost predicate CellsInRange(g: Grid) {
    IsGrid(g) && forall i, j :: 0 <= i < HEIGHT && 0 <= j < WIDTH ==> 0 <= g[i][j] <= NPIECES
  }

  /** The state of gPlayfield, or of a piece matrix, as a value. */
  ghost function Cells(a: array2<int>): (g: seq<seq<int>>)
    reads a
    ensures |g| == a.Length0
    ensures forall i :: 0 <= i < a.Length0 ==> |g[i]| == a.Length1
    ensures forall i, j :: 0 <= i < a.Length0 && 0 <= j < a.Length1 ==> g[i][j] == a[i, j]
  {
    RowsOf(a, a.Length0)
  }

  /** The first k rows of a. */
  ghost function RowsOf(a: array2<int>, k: nat): (g: seq<seq<int>>)
    requires k <= a.Length0
    reads a
    ensures |g| == k
    ensures forall i :: 0 <= i < k ==> |g[i]| == a.Length1
    ensures forall i, j :: 0 <= i < k && 0 <= j < a.Length1 ==> g[i][j] == a[i, j]
  {
    if k == 0 then [] else RowsOf(a, k - 1) + [CellsOfRow(a, k - 1, a.Length1)]
  }

  /** The first k cells of row i of a. */
  ghost function CellsOfRow(a: array2<int>, i: nat, k: nat): (r: seq<int>)
    requires i < a.Length0 && k <= a.Length1
    reads a
    ensures |r| == k
    ensures forall j :: 0 <= j < k ==> r[j] == a[i, j]
  {
    if k == 0 then [] else CellsOfRow(a, i, k - 1) + [a[i, k - 1]]
  }

  /** Two grids are equal when they agree cell by cell. */
  lemma GridExt(a: Grid, b: Grid)
    requires IsGrid(a) && IsGrid(b)
    requires forall i, j :: 0 <= i < HEIGHT && 0 <= j < WIDTH ==> a[i][j] == b[i][j]
    ensures a == b
  {
    forall i | 0 <= i < HEIGHT ensures a[i] == b[i] {
      assert forall j :: 0 <= j < WIDTH ==> a[i][j] == b[i][j];
    }
  }

  // ---------------------------------------------------------------------
  // Collision

  /**
   * A piece cell placed at (row, col) is rejected: it is left or right of
   * the playfield, below its last row, or on an occupied cell. The row is
   * never negative here: the source reads gPlayfield[row] unchecked.
   */
  ghost predicate Blocked(g: Grid, row: nat, col: int)
    requires IsGrid(g)
  {
    col < 0 || col >= WIDTH || row >= HEIGHT || g[row][col] != 0
  }

  /**
   * piece_collided, stated as the property it decides: some occupied cell of
   * matrix m, placed with its top-left corner at (x, y), is blocked.
   */
  ghost predicate Collides(m: Matrix, x: int, y: int, g: Grid)
    requires IsMatrix(m) && IsGrid(g) && y >= 0
  {
    exists i, j :: 0 <= i < N && 0 <= j < N && m[i][j] == 1 && Blocked(g, i + y, j + x)
  }

  // ---------------------------------------------------------------------
  // Writing and erasing a piece's footprint

  /** Grid cell (row, col) lies under an occupied cell of m placed at (x, y). */
  predicate Covers(m: Matrix, x: int, y: int, row: int, col: int)
    requires IsMatrix(m)
  {
    x <= col < x + N && y <= row < y + N && m[row - y][col - x] == 1
  }

  /** playfield_add_piece: every grid cell under the piece takes the piece's shape id. */
  function Added(g: Grid, m: Matrix, x: int, y: int, shape: int): (r: Grid)
    requires IsGrid(g) && IsMatrix(m)
    ensures IsGrid(r)
  {
    seq(HEIGHT, i requires 0 <= i < HEIGHT =>
      seq(WIDTH, j requires 0 <= j < WIDTH => if Covers(m, x, y, i, j) then shape else g[i][j]))
  }

  /** playfield_remove_piece: every grid cell under the piece becomes empty. */
  function Removed(g: Grid, m: Matrix, x: int, y: int): (r: Grid)
    requires IsGrid(g) && IsMatrix(m)
    ensures IsGrid(r)
  {
    seq(HEIGHT, i requires 0 <= i < HEIGHT =>
      seq(WIDTH, j requires 0 <= j < WIDTH => if Covers(m, x, y, i, j) then 0 else g[i][j]))
  }

  /**
   * Erasing undoes writing whenever the piece did not collide: the cells
   * under it were empty before it was written.
   */
  lemma RemoveUndoesAdd(g: Grid, m: Matrix, x: int, y: int, shape: int)
    requires IsGrid(g) && IsMatrix(m) && y >= 0
    requires !Collides(m, x, y, g)
    ensures Removed(Added(g, m, x, y, shape), m, x, y) == g
  {
    var r := Removed(Added(g, m, x, y, shape), m, x, y);
    forall i, j | 0 <= i < HEIGHT && 0 <= j < WIDTH ensures r[i][j] == g[i][j] {
      if Covers(m, x, y, i, j) {
        assert m[i - y][j - x] == 1;
        assert !Blocked(g, (i - y) + y, (j - x) + x);
      }
    }
    GridExt(r, g);
  }

  /** Writing a piece with a valid shape id keeps every cell in range. */
  lemma AddedInRange(g: Grid, m: Matrix, x: int, y: int, shape: int)
    requires CellsInRange(g) && IsMatrix(m) && 1 <= shape <= NPIECES
    ensures CellsInRange(Added(g, m, x, y, shape))
  {
  }

  /** Writing a piece changes no row outside the N rows it spans. */
  lemma AddedOnlyTouchesSpan(g: Grid, m: Matrix, x: int, y: int, shape: int, i: int)
    requires IsGrid(g) && IsMatrix(m) && 0 <= i < HEIGHT
    requires i < y || y + N <= i
    ensures Added(g, m, x, y, shape)[i] == g[i]
  {
    var r := Added(g, m, x, y, shape);
    assert forall j :: 0 <= j < WIDTH ==> r[i][j] == g[i][j];
  }

  // ---------------------------------------------------------------------
  // Full rows and compaction

  /** A row with no empty cell. */
  predicate RowFull(row: Row) {
    forall j :: 0 <= j < |row| ==> row[j] != 0
  }

  ghost predicate NoFullRows(g: Grid) {
    forall i :: 0 <= i < |g| ==> !RowFull(g[i])
  }

  /**
   * The indices of the full rows among rows lo.. of g, bottom row first:
   * the order in which playfield_drop_full_rows records them.
   */
  function FullRows(g: Grid, lo: nat): (r: seq<int>)
    ensures |r| <= if lo <= |g| then |g| - lo else 0
    decreases |g| - lo
  {
    if lo >= |g| then [] else FullRows(g, lo + 1) + (if RowFull(g[lo]) then [lo] else [])
  }

  /**
   * The rows among rows lo.. of g that are not full, top row first.
   * Together with the full rows they account for every row from lo on.
   */
  function Kept(g: Grid, lo: nat): (r: seq<Row>)
    ensures |r| + |FullRows(g, lo)| == if lo <= |g| then |g| - lo else 0
    decreases |g| - lo
  {
    if lo >= |g| then [] else (if RowFull(g[lo]) then [] else [g[lo]]) + Kept(g, lo + 1)
  }

  /** An all-empty row. */
  function ZeroRow(): (r: Row)
    ensures |r| == WIDTH && forall j :: 0 <= j < WIDTH ==> r[j] == 0
  {
    seq(WIDTH, j => 0)
  }

  /** The playfield after initialize: every cell empty. */
  function EmptyGrid(): (g: Grid)
    ensures IsGrid(g) && forall i, j :: 0 <= i < HEIGHT && 0 <= j < WIDTH ==> g[i][j] == 0
  {
    seq(HEIGHT, i => ZeroRow())
  }

  /** The empty playfield is in range and has no full row. */
  lemma EmptyGridClean()
    ensures CellsInRange(EmptyGrid()) && NoFullRows(EmptyGrid())
  {
    var e := EmptyGrid();
    forall i | 0 <= i < HEIGHT ensures !RowFull(e[i]) {
      assert e[i][0] == 0;
    }
  }

  /**
   * playfield_drop_full_rows, as a value: the rows that are not full, in
   * their original order, packed at the bottom, under as many empty rows as
   * there were full rows.
   */
  function Dropped(g: Grid): (r: Grid)
    ensures |r| == |g|
  {
    seq(|FullRows(g, 0)|, i => ZeroRow()) + Kept(g, 0)
  }

  /** Every entry of FullRows(g, lo) is the index of a full row at or below lo, in strictly decreasing order. */
  lemma {:induction false} FullRowsEntries(g: Grid, lo: nat)
    ensures forall q :: 0 <= q < |FullRows(g, lo)| ==>
      lo <= FullRows(g, lo)[q] < |g| && RowFull(g[FullRows(g, lo)[q]])
    ensures forall p, q :: 0 <= p < q < |FullRows(g, lo)| ==> FullRows(g, lo)[p] > FullRows(g, lo)[q]
    decreases |g| - lo
  {
    if lo < |g| {
      FullRowsEntries(g, lo + 1);
    }
  }

  /**
   * The full rows from hi on come first among the full rows from lo on
   * (lo <= hi); the ones after them lie above hi.
   */
  lemma {:induction false} FullRowsPrefix(g: Grid, lo: nat, hi: nat)
    requires lo <= hi
    ensures FullRows(g, hi) <= FullRows(g, lo)
    ensures forall q :: |FullRows(g, hi)| <= q < |FullRows(g, lo)| ==> FullRows(g, lo)[q] < hi
    decreases hi - lo
  {
    if lo < hi {
      FullRowsPrefix(g, lo + 1, hi);
      FullRowsEntries(g, lo + 1);
      if lo < |g| {
        assert FullRows(g, lo) == FullRows(g, lo + 1) + (if RowFull(g[lo]) then [lo] else []);
      }
    }
  }

  /** The rows that are kept from hi on are the last ones kept from lo on (lo <= hi). */
  lemma {:induction false} KeptSuffix(g: Grid, lo: nat, hi: nat)
    requires lo <= hi
    ensures |Kept(g, hi)| <= |Kept(g, lo)|
    ensures Kept(g, lo)[|Kept(g, lo)| - |Kept(g, hi)|..] == Kept(g, hi)
    decreases hi - lo
  {
    if lo < hi {
      KeptSuffix(g, lo + 1, hi);
      if lo < |g| {
        var head := if RowFull(g[lo]) then [] else [g[lo]];
        assert Kept(g, lo) == head + Kept(g, lo + 1);
      }
    }
  }

  /** Every kept row is a row of g, from lo on, that is not full. */
  lemma {:induction false} KeptNotFull(g: Grid, lo: nat)
    ensures forall q :: 0 <= q < |Kept(g, lo)| ==> !RowFull(Kept(g, lo)[q]) && Kept(g, lo)[q] in g[lo..]
    decreases |g| - lo
  {
    if lo < |g| {
      KeptNotFull(g, lo + 1);
      var head := if RowFull(g[lo]) then [] else [g[lo]];
      assert Kept(g, lo) == head + Kept(g, lo + 1);
      assert g[lo..] == [g[lo]] + g[lo + 1..];
    }
  }

  /**
   * A row that is not full moves down by the number of full rows below it:
   * row r of g becomes row r + |FullRows(g, r + 1)| of the result.
   */
  lemma DroppedMovesRow(g: Grid, r: nat)
    requires r < |g| && !RowFull(g[r])
    ensures r + |FullRows(g, r + 1)| < |g|
    ensures Dropped(g)[r + |FullRows(g, r + 1)|] == g[r]
  {
    KeptSuffix(g, 0, r);
    var k0 := Kept(g, 0);
    assert Kept(g, r) == [g[r]] + Kept(g, r + 1);
    var pos := |k0| - |Kept(g, r)|;
    assert k0[pos..] == Kept(g, r);
    assert k0[pos] == g[r];
    assert |FullRows(g, 0)| + pos == r + |FullRows(g, r + 1)|;
  }

  /** The top |FullRows(g, 0)| rows of the result are empty. */
  lemma DroppedTopRowsEmpty(g: Grid, i: nat)
    requires i < |FullRows(g, 0)|
    ensures i < |g| && Dropped(g)[i] == ZeroRow()
  {
    var zeros := seq(|FullRows(g, 0)|, k => ZeroRow());
    assert Dropped(g) == zeros + Kept(g, 0);
    assert Dropped(g)[i] == zeros[i];
  }

  /** Compaction keeps the grid's shape. */
  lemma DroppedIsGrid(g: Grid)
    requires IsGrid(g)
    ensures IsGrid(Dropped(g))
  {
    var d := Dropped(g);
    KeptNotFull(g, 0);
    forall i | 0 <= i < HEIGHT ensures |d[i]| == WIDTH {
      if i < |FullRows(g, 0)| {
        DroppedTopRowsEmpty(g, i);
      } else {
        assert d[i] == Kept(g, 0)[i - |FullRows(g, 0)|];
        assert d[i] in g[0..];
      }
    }
  }

  /** Compaction keeps the grid's shape and range and leaves no full row. */
  lemma DroppedIsClean(g: Grid)
    requires CellsInRange(g)
    ensures CellsInRange(Dropped(g)) && NoFullRows(Dropped(g))
  {
    var d := Dropped(g);
    var nf := |FullRows(g, 0)|;
    KeptNotFull(g, 0);
    forall i | 0 <= i < HEIGHT ensures |d[i]| == WIDTH && !RowFull(d[i])
      && forall j :: 0 <= j < WIDTH ==> 0 <= d[i][j] <= NPIECES
    {
      if i < nf {
        assert d[i] == ZeroRow();
        assert d[i][0] == 0;
      } else {
        assert d[i] == Kept(g, 0)[i - nf];
        assert d[i] in g[0..];
      }
    }
  }

  /** With no full row, compaction leaves the grid as it was. */
  lemma {:induction false} KeptAllRows(g: Grid, lo: nat)
    requires |FullRows(g, lo)| == 0 && lo <= |g|
    ensures Kept(g, lo) == g[lo..]
    decreases |g| - lo
  {
    if lo < |g| {
      assert FullRows(g, lo) == FullRows(g, lo + 1) + (if RowFull(g[lo]) then [lo] else []);
      KeptAllRows(g, lo + 1);
      assert g[lo..] == [g[lo]] + g[lo + 1..];
    }
  }

  lemma DroppedWithoutFullRows(g: Grid)
    requires |FullRows(g, 0)| == 0
    ensures Dropped(g) == g
  {
    KeptAllRows(g, 0);
  }

  /** With no full row in g there is nothing in FullRows. */
  lemma {:induction false} NoFullRowsCount(g: Grid, lo: nat)
    requires NoFullRows(g)
    ensures |FullRows(g, lo)| == 0
    decreases |g| - lo
  {
    if lo < |g| {
      NoFullRowsCount(g, lo + 1);
    }
  }

  /**
   * When only rows y .. y+N-1 can be full, at most N rows of those at or
   * below lo are full.
   */
  lemma {:induction false} FullRowsWithinSpan(g: Grid, lo: nat, y: int)
    requires forall i :: lo <= i < |g| && RowFull(g[i]) ==> y <= i < y + N
    ensures |FullRows(g, lo)| <= if lo <= y then N else if lo < y + N then y + N - lo else 0
    decreases |g| - lo
  {
    if lo < |g| {
      FullRowsWithinSpan(g, lo + 1, y);
    }
  }

  /**
   * Writing one piece onto a grid without full rows makes at most N rows
   * full, so the count returned by playfield_drop_full_rows is a valid
   * index into POINTS.
   */
  lemma AtMostFourFullRows(g: Grid, m: Matrix, x: int, y: int, shape: int)
    requires IsGrid(g) && IsMatrix(m) && NoFullRows(g)
    ensures |FullRows(Added(g, m, x, y, shape), 0)| <= N
  {
    var a := Added(g, m, x, y, shape);
    forall i | 0 <= i < |a| && RowFull(a[i]) ensures y <= i < y + N {
      if i < y || y + N <= i {
        AddedOnlyTouchesSpan(g, m, x, y, shape, i);
      }
    }
    FullRowsWithinSpan(a, 0, y);
  }
}
