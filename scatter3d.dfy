/**
 * The `Scatter3D` effect: one point per cell of a 2D array, visited row by row,
 * with the column as x, the row as y and the cell's value as z. Both copies of
 * the component run the same loops and are covered by this one model.
 */
module Scatter3D {
  import opened Wrappers
  import opened Grid

  /** The three coordinate arrays handed to the plot. */
  datatype Points = Points(x: seq<int>, y: seq<int>, z: seq<real>)

  /** Every point so far is the cell of its row-major position, shown at (column, row, value). */
  ghost predicate RowMajorPrefix(data: seq<seq<real>>, x: seq<int>, y: seq<int>, z: seq<real>)
  {
    && |y| == |x| && |z| == |x|
    && forall k :: 0 <= k < |x| ==> CellAt(data, k, y[k], x[k]) && z[k] == data[y[k]][x[k]]
  }

  /** Point `k` is the `k`-th cell in row-major order, shown at (column, row, value). */
  ghost predicate IsRowMajor(data: seq<seq<real>>, p: Points)
  {
    |p.x| == |data| * NumCols(data) && RowMajorPrefix(data, p.x, p.y, p.z)
  }

  /** Pushing the next cell in row-major order onto the three arrays keeps every point in its place. */
  lemma ExtendRowMajor(data: seq<seq<real>>, x: seq<int>, y: seq<int>, z: seq<real>, row: nat, col: nat)
    requires WideEnough(data) && row < |data| && col < NumCols(data)
    requires |x| == row * NumCols(data) + col && RowMajorPrefix(data, x, y, z)
    ensures RowMajorPrefix(data, x + [col], y + [row], z + [data[row][col]])
  {
    CellAtRowMajor(data, row, col);
    var x', y', z' := x + [col], y + [row], z + [data[row][col]];
    forall k | 0 <= k < |x'| ensures CellAt(data, k, y'[k], x'[k]) && z'[k] == data[y'[k]][x'[k]] {
      if k < |x| {
        assert x'[k] == x[k] && y'[k] == y[k] && z'[k] == z[k];
      }
    }
  }

  /** The nested loops that push onto `x`, `y` and `z`. */
  method Flatten(data: seq<seq<real>>) returns (p: Points)
    requires WideEnough(data)
    ensures IsRowMajor(data, p)
  {
    var numRows := |data|;
    var numCols := NumCols(data);
    var x: seq<int>, y: seq<int>, z: seq<real> := [], [], [];
    var row := 0;
    while row < numRows
      invariant 0 <= row <= numRows
      invariant |x| == row * numCols
      invariant RowMajorPrefix(data, x, y, z)
    {
      var col := 0;
      while col < numCols
        invariant 0 <= col <= numCols
        invariant |x| == row * numCols + col
        invariant RowMajorPrefix(data, x, y, z)
      {
        ExtendRowMajor(data, x, y, z, row, col);
        x, y, z := x + [col], y + [row], z + [data[row][col]];
        col := col + 1;
      }
      assert row * numCols + numCols == (row + 1) * numCols;
      row := row + 1;
    }
    p := Points(x, y, z);
  }

  /**
   * The effect as a whole: absent data returns before touching the state,
   * present data replaces it with the flattened points.
   */
  method OnData(data: Option<seq<seq<real>>>, state: Option<Points>) returns (next: Option<Points>)
    requires data.Some? ==> WideEnough(data.value)
    ensures data.None? ==> next == state
    ensures data.Some? ==> next.Some? && IsRowMajor(data.value, next.value)
  {
    if data.None? {
      return state;
    }
    var p := Flatten(data.value);
    next := Some(p);
  }

  /** Cell (`row`, `col`) appears at position `row * numCols + col` with its own coordinates and value. */
  lemma PointOfCell(data: seq<seq<real>>, p: Points, row: nat, col: nat)
    requires WideEnough(data) && IsRowMajor(data, p)
    requires row < |data| && col < NumCols(data)
    ensures row * NumCols(data) + col < |p.x|
    ensures p.x[row * NumCols(data) + col] == col
    ensures p.y[row * NumCols(data) + col] == row
    ensures p.z[row * NumCols(data) + col] == data[row][col]
  {
    var k := row * NumCols(data) + col;
    CellAtRowMajor(data, row, col);
    assert CellAt(data, k, p.y[k], p.x[k]);
  }

  /** Read the other way: point `k` sits at column `k mod numCols` and row `k div numCols`. */
  lemma CellOfPoint(data: seq<seq<real>>, p: Points, k: nat)
    requires IsRowMajor(data, p) && k < |p.x|
    ensures p.x[k] == k % NumCols(data) && p.y[k] == k / NumCols(data)
    ensures 0 <= p.x[k] < NumCols(data) && 0 <= p.y[k] < |data|
    ensures p.z[k] == data[k / NumCols(data)][k % NumCols(data)]
  {
    assert CellAt(data, k, p.y[k], p.x[k]);
  }

  /** The loops determine their output: two results for the same data coincide. */
  lemma {:induction false} RowMajorUnique(data: seq<seq<real>>, p: Points, q: Points)
    requires IsRowMajor(data, p) && IsRowMajor(data, q)
    ensures p == q
  {
    forall k | 0 <= k < |p.x| ensures p.x[k] == q.x[k] && p.y[k] == q.y[k] && p.z[k] == q.z[k] {
      CellOfPoint(data, p, k);
      CellOfPoint(data, q, k);
    }
  }

  /** No rows, no columns or a first row of width 0: the three arrays are empty. */
  lemma EmptyGivesNoPoints(data: seq<seq<real>>, p: Points)
    requires IsRowMajor(data, p)
    requires |data| == 0 || NumCols(data) == 0
    ensures p == Points([], [], [])
  {
  }
}
