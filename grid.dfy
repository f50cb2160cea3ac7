/**
 * The 2D arrays the charts receive (`number[][]`) and the row-major order in
 * which their nested `for` loops visit the cells.
 */
module Grid {

  /** The width of the first row, 0 when there is none. */
  function NumCols<T>(data: seq<seq<T>>): (cols: nat)
    ensures |data| == 0 ==> cols == 0
  {
    if |data| == 0 then 0 else |data[0]|
  }

  /** Every row is at least as wide as the first, so every cell the loops read exists. */
  predicate WideEnough<T>(data: seq<seq<T>>)
  {
    forall i :: 0 <= i < |data| ==> NumCols(data) <= |data[i]|
  }

  /** Position `k` of the row-major order over `NumCols(data)` columns is cell (`row`, `col`). */
  predicate CellAt<T>(data: seq<seq<T>>, k: int, row: int, col: int)
  {
    var cols := NumCols(data);
    0 < cols && 0 <= k && row == k / cols && col == k % cols && row < |data| && col < |data[row]|
  }

  /** Euclidean division undoes the row-major index. */
  lemma RowMajorDivMod(row: nat, col: nat, cols: nat)
    requires col < cols
    ensures (row * cols + col) / cols == row
    ensures (row * cols + col) % cols == col
  {
    var k := row * cols + col;
    var q, r := k / cols, k % cols;
    assert k == cols * q + r;
    assert 0 <= r < cols;
    if q < row {
      var d := row - q;
      assert cols * d == r - col;
      MulAtLeast(cols, d);
      assert false;
    } else if q > row {
      var d := q - row;
      assert cols * d == col - r;
      MulAtLeast(cols, d);
      assert false;
    }
  }

  lemma MulAtLeast(a: nat, b: nat)
    requires b >= 1
    ensures a * b >= a
  {
  }

  /** The row-major index of cell (`row`, `col`) lies below `rows * cols` and leads back to the cell. */
  lemma CellAtRowMajor<T>(data: seq<seq<T>>, row: nat, col: nat)
    requires WideEnough(data)
    requires row < |data| && col < NumCols(data)
    ensures row * NumCols(data) + col < |data| * NumCols(data)
    ensures CellAt(data, row * NumCols(data) + col, row, col)
  {
    var cols := NumCols(data);
    RowMajorDivMod(row, col, cols);
    assert row * cols + col < (row + 1) * cols;
    assert (row + 1) * cols <= |data| * cols;
  }

  /** Every position before `|data| * NumCols(data)` is a cell. */
  lemma CellAtIndex<T>(data: seq<seq<T>>, k: nat)
    requires WideEnough(data)
    requires k < |data| * NumCols(data)
    ensures CellAt(data, k, k / NumCols(data), k % NumCols(data))
  {
    var cols := NumCols(data);
    assert cols > 0;
    var row, col := k / cols, k % cols;
    assert k == row * cols + col;
  }
}
