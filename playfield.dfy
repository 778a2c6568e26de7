/**
 * The in-place operations on gPlayfield, the HEIGHT x WIDTH array of cells.
 *
 * Each method is proved to leave the array holding exactly the grid that
 * the matching function of module Board computes from the old contents.
 */
module Playfield {
  import opened Shapes
  import opened Board
  import opened Pieces

  /** The sentinel that marks an unused slot of full_rows. */
  const SENTINEL := -99

  /** initialize: every cell of the playfield is emptied. */
  method Clear(field: array2<int>)
    requires field.Length0 == HEIGHT && field.Length1 == WIDTH
    modifies field
    ensures Cells(field) == EmptyGrid()
  {
    var i := 0;
    while i < HEIGHT
      invariant 0 <= i <= HEIGHT
      invariant forall r, c :: 0 <= r < i && 0 <= c < WIDTH ==> field[r, c] == 0
    {
      var j := 0;
      while j < WIDTH
        invariant 0 <= j <= WIDTH
        invariant forall r, c :: 0 <= r < i && 0 <= c < WIDTH ==> field[r, c] == 0
        invariant forall c :: 0 <= c < j ==> field[i, c] == 0
      {
        field[i, j] := 0;
        j := j + 1;
      }
      i := i + 1;
    }
    GridExt(Cells(field), EmptyGrid());
  }

  /** playfield_add_piece: writes the piece's shape id into every cell under it. */
  method AddPiece(field: array2<int>, p: Piece)
    requires field.Length0 == HEIGHT && field.Length1 == WIDTH && p.Valid()
    modifies field
    ensures Cells(field) == Added(old(Cells(field)), p.Mat(), p.posx, p.posy, p.shape)
  {
    ghost var g := Cells(field);
    ghost var a := Added(g, p.Mat(), p.posx, p.posy, p.shape);
    var i := 0;
    while i < HEIGHT
      invariant 0 <= i <= HEIGHT
      invariant forall r, c :: 0 <= r < i && 0 <= c < WIDTH ==> field[r, c] == a[r][c]
      invariant forall r, c :: i <= r < HEIGHT && 0 <= c < WIDTH ==> field[r, c] == g[r][c]
    {
      var j := 0;
      while j < WIDTH
        invariant 0 <= j <= WIDTH
        invariant forall r, c :: 0 <= r < i && 0 <= c < WIDTH ==> field[r, c] == a[r][c]
        invariant forall c :: 0 <= c < j ==> field[i, c] == a[i][c]
        invariant forall r, c :: i <= r < HEIGHT && 0 <= c < WIDTH && (r != i || c >= j) ==> field[r, c] == g[r][c]
      {
        if j >= p.posx && j < p.posx + N && i >= p.posy && i < p.posy + N && p.matrix[i - p.posy, j - p.posx] == 1 {
          field[i, j] := p.shape;
        }
        j := j + 1;
      }
      i := i + 1;
    }
    GridExt(Cells(field), a);
  }

  /** playfield_remove_piece: empties every cell under the piece. */
  method RemovePiece(field: array2<int>, p: Piece)
    requires field.Length0 == HEIGHT && field.Length1 == WIDTH && p.Valid()
    modifies field
    ensures Cells(field) == Removed(old(Cells(field)), p.Mat(), p.posx, p.posy)
  {
    ghost var g := Cells(field);
    ghost var a := Removed(g, p.Mat(), p.posx, p.posy);
    var i := 0;
    while i < HEIGHT
      invariant 0 <= i <= HEIGHT
      invariant forall r, c :: 0 <= r < i && 0 <= c < WIDTH ==> field[r, c] == a[r][c]
      invariant forall r, c :: i <= r < HEIGHT && 0 <= c < WIDTH ==> field[r, c] == g[r][c]
    {
      var j := 0;
      while j < WIDTH
        invariant 0 <= j <= WIDTH
        invariant forall r, c :: 0 <= r < i && 0 <= c < WIDTH ==> field[r, c] == a[r][c]
        invariant forall c :: 0 <= c < j ==> field[i, c] == a[i][c]
        invariant forall r, c :: i <= r < HEIGHT && 0 <= c < WIDTH && (r != i || c >= j) ==> field[r, c] == g[r][c]
      {
        if j >= p.posx && j < p.posx + N && i >= p.posy && i < p.posy + N && p.matrix[i - p.posy, j - p.posx] == 1 {
          field[i, j] := 0;
        }
        j := j + 1;
      }
      i := i + 1;
    }
    GridExt(Cells(field), a);
  }

  /** The scan of one row for an empty cell, stopping at the first one found. */
  method IsRowFull(field: array2<int>, i: int) returns (full: bool)
    requires field.Length0 == HEIGHT && field.Length1 == WIDTH && 0 <= i < HEIGHT
    ensures full == RowFull(Cells(field)[i])
  {
    var j := 0;
    while j < WIDTH
      invariant 0 <= j <= WIDTH
      invariant forall c :: 0 <= c < j ==> field[i, c] != 0
    {
      if field[i, j] == 0 {
        break;
      }
      j := j + 1;
    }
    full := j == WIDTH;
  }

  /**
   * The copy step of the compaction: row i receives row k, or zeros when k
   * has run past the top of the playfield. Rows are copied downwards, so
   * k <= i and row k still holds its old contents.
   */
  method FillRow(field: array2<int>, i: int, k: int)
    requires field.Length0 == HEIGHT && field.Length1 == WIDTH && 0 <= i < HEIGHT && k <= i
    modifies field
    ensures forall c :: 0 <= c < WIDTH ==> field[i, c] == if k < 0 then 0 else old(field[k, c])
    ensures forall r, c :: 0 <= r < HEIGHT && r != i && 0 <= c < WIDTH ==> field[r, c] == old(field[r, c])
  {
    var j := 0;
    while j < WIDTH
      invariant 0 <= j <= WIDTH
      invariant forall c :: 0 <= c < j ==> field[i, c] == if k < 0 then 0 else old(field[k, c])
      invariant forall r, c :: 0 <= r < HEIGHT && 0 <= c < WIDTH && (r != i || c >= j) ==> field[r, c] == old(field[r, c])
    {
      if k < 0 {
        field[i, j] := 0;
      } else {
        field[i, j] := field[k, j];
      }
      j := j + 1;
    }
  }

  /**
   * The first half of playfield_drop_full_rows: full_rows is filled with the
   * sentinel, then the rows are scanned from the bottom up and the index of
   * each full one is recorded. Returns full_rows and the number recorded.
   */
  method RecordFullRows(field: array2<int>) returns (fullRows: array<int>, nrows: int)
    requires field.Length0 == HEIGHT && field.Length1 == WIDTH
    ensures fresh(fullRows) && fullRows.Length == HEIGHT
    ensures nrows == |FullRows(Cells(field), 0)|
    ensures fullRows[..nrows] == FullRows(Cells(field), 0)
    ensures forall q :: nrows <= q < HEIGHT ==> fullRows[q] == SENTINEL
  {
    ghost var g := Cells(field);
    fullRows := new int[HEIGHT];
    var ptr := 0;
    while ptr < HEIGHT
      invariant 0 <= ptr <= HEIGHT
      invariant forall q :: 0 <= q < ptr ==> fullRows[q] == SENTINEL
    {
      fullRows[ptr] := SENTINEL;
      ptr := ptr + 1;
    }
    ptr := 0;
    var i := HEIGHT - 1;
    while i >= 0
      invariant -1 <= i < HEIGHT
      invariant ptr == |FullRows(g, i + 1)| <= HEIGHT - 1 - i
      invariant fullRows[..ptr] == FullRows(g, i + 1)
      invariant forall q :: ptr <= q < HEIGHT ==> fullRows[q] == SENTINEL
    {
      var full := IsRowFull(field, i);
      assert FullRows(g, i) == FullRows(g, i + 1) + (if RowFull(g[i]) then [i] else []);
      if full {
        fullRows[ptr] := i;
        ptr := ptr + 1;
      }
      i := i - 1;
    }
    nrows := ptr;
  }

  /**
   * The second half of playfield_drop_full_rows: walking up from the bottom
   * row, the source row k skips every recorded full row, and row i receives
   * row k, or zeros once k has run past the top.
   */
  method Compact(field: array2<int>, fullRows: array<int>)
    requires field.Length0 == HEIGHT && field.Length1 == WIDTH && fullRows.Length == HEIGHT
    requires fullRows[..|FullRows(Cells(field), 0)|] == FullRows(Cells(field), 0)
    requires forall q :: |FullRows(Cells(field), 0)| <= q < HEIGHT ==> fullRows[q] == SENTINEL
    modifies field
    ensures Cells(field) == Dropped(old(Cells(field)))
  {
    ghost var g := Cells(field);
    ghost var fr := FullRows(g, 0);
    ghost var d := Dropped(g);
    DroppedIsGrid(g);
    FullRowsEntries(g, 0);
    var ptr := 0;
    var k := HEIGHT - 1;
    var i := HEIGHT - 1;
    while i >= 0
      invariant -1 <= i < HEIGHT
      invariant k == i - ptr && 0 <= ptr <= |fr|
      invariant ptr == |FullRows(g, if k + 1 < 0 then 0 else k + 1)|
      invariant k < 0 ==> ptr == |fr|
      invariant forall r, c :: 0 <= r <= i && 0 <= c < WIDTH ==> field[r, c] == g[r][c]
      invariant forall r, c :: i < r < HEIGHT && 0 <= c < WIDTH ==> field[r, c] == d[r][c]
    {
      k, ptr := SkipFullRows(g, fullRows, i, k, ptr);
      SourceRow(g, i, k, ptr);
      FillRow(field, i, k);
      i := i - 1;
      k := k - 1;
    }
    GridExt(Cells(field), d);
  }

  /**
   * The skip loop of the compaction: while row k is the next recorded full
   * row, the source row moves up past it.
   */
  method SkipFullRows(ghost g: Grid, fullRows: array<int>, i: int, k0: int, ptr0: int) returns (k: int, ptr: int)
    requires IsGrid(g) && fullRows.Length == HEIGHT && 0 <= i < HEIGHT
    requires fullRows[..|FullRows(g, 0)|] == FullRows(g, 0)
    requires forall q :: |FullRows(g, 0)| <= q < HEIGHT ==> fullRows[q] == SENTINEL
    requires k0 == i - ptr0 && 0 <= ptr0 <= |FullRows(g, 0)|
    requires ptr0 == |FullRows(g, if k0 + 1 < 0 then 0 else k0 + 1)|
    requires k0 < 0 ==> ptr0 == |FullRows(g, 0)|
    ensures k == i - ptr && 0 <= ptr <= |FullRows(g, 0)|
    ensures ptr == |FullRows(g, if k + 1 < 0 then 0 else k + 1)|
    ensures k < 0 ==> ptr == |FullRows(g, 0)|
    ensures ptr < |FullRows(g, 0)| ==> FullRows(g, 0)[ptr] != k
  {
    ghost var fr := FullRows(g, 0);
    FullRowsEntries(g, 0);
    k, ptr := k0, ptr0;
    while ptr < HEIGHT && k == fullRows[ptr]
      invariant k == i - ptr && 0 <= ptr <= |fr|
      invariant ptr == |FullRows(g, if k + 1 < 0 then 0 else k + 1)|
      invariant k < 0 ==> ptr == |fr|
    {
      assert ptr < |fr| && fullRows[ptr] == fr[ptr];
      SkipFullRow(g, k, ptr);
      k := k - 1;
      ptr := ptr + 1;
    }
    assert ptr < |fr| ==> fullRows[ptr] == fr[ptr];
  }

  /**
   * playfield_drop_full_rows: records the full rows, and when there are
   * any, copies every row that is not full down over them, filling the top
   * with empty rows. Returns the number of full rows.
   */
  method DropFullRows(field: array2<int>) returns (nrows: int)
    requires field.Length0 == HEIGHT && field.Length1 == WIDTH
    modifies field
    ensures nrows == |FullRows(old(Cells(field)), 0)|
    ensures Cells(field) == Dropped(old(Cells(field)))
  {
    var fullRows;
    fullRows, nrows := RecordFullRows(field);
    var flag := nrows > 0;
    if !flag {
      DroppedWithoutFullRows(Cells(field));
      return;
    }
    Compact(field, fullRows);
  }

  /**
   * The skip step of the compaction: when row k is the next recorded full
   * row, skipping it counts it among the full rows from k on.
   */
  lemma SkipFullRow(g: Grid, k: int, ptr: nat)
    requires IsGrid(g) && -HEIGHT <= k < HEIGHT
    requires ptr == |FullRows(g, if k + 1 < 0 then 0 else k + 1)| && ptr < |FullRows(g, 0)|
    requires FullRows(g, 0)[ptr] == k
    ensures 0 <= k && ptr + 1 == |FullRows(g, k)|
    ensures k - 1 < 0 ==> ptr + 1 == |FullRows(g, 0)|
  {
    FullRowsEntries(g, 0);
    FullRowsPrefix(g, 0, k + 1);
    assert FullRows(g, k) == FullRows(g, k + 1) + [k];
    if k == 0 {
      assert ptr + 1 == |FullRows(g, 0)|;
    }
  }

  /**
   * Where the skip loop stops on a row k that exists, that row is not full:
   * a full row k would be the next recorded one.
   */
  lemma NextRowKept(g: Grid, k: nat, ptr: nat)
    requires IsGrid(g) && k < HEIGHT
    requires ptr == |FullRows(g, k + 1)| && ptr <= |FullRows(g, 0)|
    requires ptr < |FullRows(g, 0)| ==> FullRows(g, 0)[ptr] != k
    ensures !RowFull(g[k])
  {
    if RowFull(g[k]) {
      assert FullRows(g, k) == FullRows(g, k + 1) + [k];
      FullRowsPrefix(g, 0, k);
    }
  }

  /**
   * Where the skip loop stops, row i of the compacted grid is the source
   * row k, or empty once k has run past the top.
   */
  lemma SourceRow(g: Grid, i: int, k: int, ptr: nat)
    requires IsGrid(g) && 0 <= i < HEIGHT && k == i - ptr && ptr <= |FullRows(g, 0)|
    requires ptr == |FullRows(g, if k + 1 < 0 then 0 else k + 1)|
    requires k < 0 ==> ptr == |FullRows(g, 0)|
    requires ptr < |FullRows(g, 0)| ==> FullRows(g, 0)[ptr] != k
    ensures Dropped(g)[i] == if k < 0 then ZeroRow() else g[k]
    ensures k >= 0 ==> ptr == |FullRows(g, k)|
  {
    if k >= 0 {
      NextRowKept(g, k, ptr);
      DroppedMovesRow(g, k);
      assert FullRows(g, k) == FullRows(g, k + 1);
    } else {
      DroppedTopRowsEmpty(g, i);
    }
  }
}
