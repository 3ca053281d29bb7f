/**
  The shape of the instrument's LED grid (8 rows by 12 columns) and the
  column-major order in which the device receives its cells.
 */
module Matrix {

  const Rows: nat := 8
  const Cols: nat := 12
  const CellCount: nat := Rows * Cols

  predicate InGrid(r: int, c: int) {
    0 <= r < Rows && 0 <= c < Cols
  }

  /** Cell (i, j) comes before cell (r, c) when the grid is walked row by row. */
  predicate Before(i: int, j: int, r: int, c: int) {
    i < r || (i == r && j < c)
  }

  /** A value table shaped like the grid: 8 rows of 12 entries. */
  predicate IsGrid<T>(m: seq<seq<T>>) {
    |m| == Rows && forall r :: 0 <= r < Rows ==> |m[r]| == Cols
  }

  /** The all-zero brightness matrix. */
  function Zero(): (m: seq<seq<int>>)
    ensures IsGrid(m)
    ensures forall r, c :: InGrid(r, c) ==> m[r][c] == 0
  {
    seq(Rows, _ => seq(Cols, _ => 0))
  }

  /** Cell (r, c) of the position k in column-major order. */
  lemma ColumnMajorPosition(r: int, c: int)
    requires InGrid(r, c)
    ensures 0 <= c * Rows + r < CellCount
    ensures (c * Rows + r) % Rows == r && (c * Rows + r) / Rows == c
  {
  }

  /** Column `c + 1` starts right after the `Rows` entries of column `c`. */
  lemma NextColumn(c: int)
    requires 0 <= c < Cols
    ensures (c + 1) * Rows == c * Rows + Rows <= CellCount
  {
  }

  /**
    The grid's entries listed column by column, each column top to bottom: the
    entry at position `c * Rows + r` is `m[r][c]`.
   */
  function ColumnMajor<T>(m: seq<seq<T>>): (s: seq<T>)
    requires IsGrid(m)
    ensures |s| == CellCount
    ensures forall r, c :: InGrid(r, c) ==> s[c * Rows + r] == m[r][c]
  {
    var s := seq(CellCount, k requires 0 <= k < CellCount => m[k % Rows][k / Rows]);
    assert forall r, c :: InGrid(r, c) ==> s[c * Rows + r] == m[r][c] by {
      forall r, c | InGrid(r, c) ensures s[c * Rows + r] == m[r][c] {
        ColumnMajorPosition(r, c);
      }
    }
    s
  }
}
