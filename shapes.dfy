/**
 * The 4x4 occupancy matrices of the seven tetrominoes and the two quarter
 * turns the game applies to them.
 *
 * A matrix is stored row-major: m[i][j] is row i, column j of the piece's
 * local frame; 1 marks an occupied cell, 0 an empty one.
 */
module Shapes {

  /** Side of a piece matrix (PIECE_MATRIX_WIDTH = PIECE_MATRIX_HEIGHT). */
  const N := 4

  /** Number of shapes in the catalog (NPIECES). */
  const NPIECES := 7

  type Matrix = seq<seq<int>>

  /** N rows of N cells, every cell 0 or 1. */
  ghost predicate IsMatrix(m: Matrix) {
    |m| == N &&
    forall i :: 0 <= i < N ==> |m[i]| == N && forall j :: 0 <= j < N ==> m[i][j] == 0 || m[i][j] == 1
  }

  /** piece_rotate_clock: the cell at row i, column j moves to row j, column N-1-i. */
  function Clockwise(m: Matrix): (r: Matrix)
    requires IsMatrix(m)
    ensures IsMatrix(r)
    ensures forall i, j :: 0 <= i < N && 0 <= j < N ==> r[j][N - 1 - i] == m[i][j]
  {
    seq(N, row requires 0 <= row < N => seq(N, col requires 0 <= col < N => m[N - 1 - col][row]))
  }

  /** piece_rotate_anticlock: the cell at row i, column j moves to row N-1-j, column i. */
  function Anticlockwise(m: Matrix): (r: Matrix)
    requires IsMatrix(m)
    ensures IsMatrix(r)
    ensures forall i, j :: 0 <= i < N && 0 <= j < N ==> r[N - 1 - j][i] == m[i][j]
  {
    seq(N, row requires 0 <= row < N => seq(N, col requires 0 <= col < N => m[col][N - 1 - row]))
  }

  /** N rows of N cells, whatever their values. */
  ghost predicate IsSquare(m: Matrix) {
    |m| == N && forall i :: 0 <= i < N ==> |m[i]| == N
  }

  /** Two N by N matrices are equal when they agree cell by cell. */
  lemma MatrixExt(a: Matrix, b: Matrix)
    requires IsSquare(a) && IsSquare(b)
    requires forall i, j :: 0 <= i < N && 0 <= j < N ==> a[i][j] == b[i][j]
    ensures a == b
  {
    forall i | 0 <= i < N ensures a[i] == b[i] {
      assert forall j :: 0 <= j < N ==> a[i][j] == b[i][j];
    }
  }

  /** The anticlockwise turn undoes the clockwise one. */
  lemma AnticlockwiseUndoesClockwise(m: Matrix)
    requires IsMatrix(m)
    ensures Anticlockwise(Clockwise(m)) == m
  {
    var c := Clockwise(m);
    var r := Anticlockwise(c);
    forall i, j | 0 <= i < N && 0 <= j < N ensures r[i][j] == m[i][j] {
      assert r[i][j] == c[j][N - 1 - i];
      assert c[j][N - 1 - i] == m[i][j];
    }
    MatrixExt(r, m);
  }

  /** The clockwise turn undoes the anticlockwise one. */
  lemma ClockwiseUndoesAnticlockwise(m: Matrix)
    requires IsMatrix(m)
    ensures Clockwise(Anticlockwise(m)) == m
  {
    var a := Anticlockwise(m);
    var r := Clockwise(a);
    forall i, j | 0 <= i < N && 0 <= j < N ensures r[i][j] == m[i][j] {
      assert r[i][j] == a[N - 1 - j][i];
      assert a[N - 1 - j][i] == m[i][j];
    }
    MatrixExt(r, m);
  }

  /** Four clockwise quarter turns give back the original matrix. */
  lemma FourClockwiseIsIdentity(m: Matrix)
    requires IsMatrix(m)
    ensures Clockwise(Clockwise(Clockwise(Clockwise(m)))) == m
  {
    var c1 := Clockwise(m);
    var c2 := Clockwise(c1);
    var c3 := Clockwise(c2);
    var c4 := Clockwise(c3);
    forall i, j | 0 <= i < N && 0 <= j < N ensures c4[i][j] == m[i][j] {
      assert c4[i][j] == c3[N - 1 - j][i];
      assert c3[N - 1 - j][i] == c2[N - 1 - i][N - 1 - j];
      assert c2[N - 1 - i][N - 1 - j] == c1[j][N - 1 - i];
      assert c1[j][N - 1 - i] == m[i][j];
    }
    MatrixExt(c4, m);
  }

  /** The occupied cells of a matrix, as (row, column) pairs. */
  ghost function Occupied(m: Matrix): set<(int, int)>
    requires IsMatrix(m)
  {
    set i, j | 0 <= i < N && 0 <= j < N && m[i][j] == 1 :: (i, j)
  }

  /** Where a clockwise turn sends the cell (i, j). */
  function TurnCell(p: (int, int)): (int, int) {
    (p.1, N - 1 - p.0)
  }

  /** The image of a set of cells under TurnCell has as many cells as the set. */
  lemma {:induction false} TurnCellsCard(s: set<(int, int)>)
    ensures |set p | p in s :: TurnCell(p)| == |s|
  {
    if s != {} {
      var x :| x in s;
      var rest := s - {x};
      TurnCellsCard(rest);
      var img := set p | p in s :: TurnCell(p);
      var imgRest := set p | p in rest :: TurnCell(p);
      assert img == imgRest + {TurnCell(x)};
      assert TurnCell(x) !in imgRest;
    } else {
      assert (set p | p in s :: TurnCell(p)) == {};
    }
  }

  /** A clockwise turn moves each occupied cell to its turned position, so it keeps the number of occupied cells. */
  lemma ClockwiseKeepsOccupiedCount(m: Matrix)
    requires IsMatrix(m)
    ensures Occupied(Clockwise(m)) == set p | p in Occupied(m) :: TurnCell(p)
    ensures |Occupied(Clockwise(m))| == |Occupied(m)|
  {
    var c := Clockwise(m);
    var img := set p | p in Occupied(m) :: TurnCell(p);
    forall q | q in Occupied(c) ensures q in img {
      var i, j := q.0, q.1;
      var src := (N - 1 - j, i);
      assert c[i][j] == m[N - 1 - j][i];
      assert src in Occupied(m);
      assert TurnCell(src) == q;
    }
    forall q | q in img ensures q in Occupied(c) {
      var src :| src in Occupied(m) && TurnCell(src) == q;
      assert c[src.1][N - 1 - src.0] == m[src.0][src.1];
    }
    TurnCellsCard(Occupied(m));
  }

  /** An anticlockwise turn keeps the number of occupied cells. */
  lemma AnticlockwiseKeepsOccupiedCount(m: Matrix)
    requires IsMatrix(m)
    ensures |Occupied(Anticlockwise(m))| == |Occupied(m)|
  {
    var a := Anticlockwise(m);
    ClockwiseUndoesAnticlockwise(m);
    ClockwiseKeepsOccupiedCount(a);
  }

  /**
   * The seven catalog pieces in the order of the pieces[] array:
   * I, J, L, O, S, T, Z, with shape ids 1..7.
   */
  function Catalog(k: nat): (m: Matrix)
    requires k < NPIECES
    ensures IsMatrix(m)
  {
    match k
    case 0 => [[0, 1, 0, 0], [0, 1, 0, 0], [0, 1, 0, 0], [0, 1, 0, 0]]
    case 1 => [[0, 0, 1, 0], [0, 0, 1, 0], [0, 1, 1, 0], [0, 0, 0, 0]]
    case 2 => [[0, 1, 0, 0], [0, 1, 0, 0], [0, 1, 1, 0], [0, 0, 0, 0]]
    case 3 => [[0, 0, 0, 0], [0, 1, 1, 0], [0, 1, 1, 0], [0, 0, 0, 0]]
    case 4 => [[0, 0, 0, 0], [0, 1, 1, 0], [1, 1, 0, 0], [0, 0, 0, 0]]
    case 5 => [[0, 0, 0, 0], [0, 1, 0, 0], [1, 1, 1, 0], [0, 0, 0, 0]]
    case _ => [[0, 0, 0, 0], [1, 1, 0, 0], [0, 1, 1, 0], [0, 0, 0, 0]]
  }
}
