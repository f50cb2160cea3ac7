/**
 * The `ScatterPlot` component: every cell becomes a point whose x is the
 * 1-based column and whose y is the cell's value, in row-major order.
 */
module ScatterPlot {
  import opened Grid

  datatype XY = XY(x: int, y: real)

  /** Every point so far is the cell of its row-major position, plotted at its 1-based column. */
  ghost predicate ScatterPrefix(data: seq<seq<real>>, points: seq<XY>)
  {
    forall k :: 0 <= k < |points| ==>
      NumCols(data) > 0 && CellAt(data, k, k / NumCols(data), points[k].x - 1) && points[k].y == data[k / NumCols(data)][points[k].x - 1]
  }

  /** Point `k` is cell (`k div numCols`, `k mod numCols`), plotted at its 1-based column. */
  ghost predicate IsScatter(data: seq<seq<real>>, points: seq<XY>)
  {
    |points| == |data| * NumCols(data) && ScatterPrefix(data, points)
  }

  /** Pushing the point of the next cell in row-major order keeps every point in its place. */
  lemma ExtendScatter(data: seq<seq<real>>, points: seq<XY>, row: nat, col: nat)
    requires WideEnough(data) && row < |data| && col < NumCols(data)
    requires |points| == row * NumCols(data) + col && ScatterPrefix(data, points)
    ensures ScatterPrefix(data, points + [XY(col + 1, data[row][col])])
  {
    CellAtRowMajor(data, row, col);
    var next := points + [XY(col + 1, data[row][col])];
    forall k | 0 <= k < |next|
      ensures NumCols(data) > 0 && CellAt(data, k, k / NumCols(data), next[k].x - 1) && next[k].y == data[k / NumCols(data)][next[k].x - 1]
    {
      if k < |points| {
        assert next[k] == points[k];
      }
    }
  }

  /** The nested loops that push `{ x: colIndex + 1, y: data[rowIndex][colIndex] }`. */
  method BuildPoints(data: seq<seq<real>>) returns (points: seq<XY>)
    requires WideEnough(data)
    ensures IsScatter(data, points)
  {
    var numRows := |data|;
    var numCols := NumCols(data);
    points := [];
    var rowIndex := 0;
    while rowIndex < numRows
      invariant 0 <= rowIndex <= numRows
      invariant |points| == rowIndex * numCols
      invariant ScatterPrefix(data, points)
    {
      var colIndex := 0;
      while colIndex < numCols
        invariant 0 <= colIndex <= numCols
        invariant |points| == rowIndex * numCols + colIndex
        invariant ScatterPrefix(data, points)
      {
        ExtendScatter(data, points, rowIndex, colIndex);
        points := points + [XY(colIndex + 1, data[rowIndex][colIndex])];
        colIndex := colIndex + 1;
      }
      assert rowIndex * numCols + numCols == (rowIndex + 1) * numCols;
      rowIndex := rowIndex + 1;
    }
  }

  /** The point for cell (`row`, `col`) is `(col + 1, data[row][col])`, at position `row * numCols + col`. */
  lemma PointOfCell(data: seq<seq<real>>, points: seq<XY>, row: nat, col: nat)
    requires WideEnough(data) && IsScatter(data, points)
    requires row < |data| && col < NumCols(data)
    ensures row * NumCols(data) + col < |points|
    ensures points[row * NumCols(data) + col] == XY(col + 1, data[row][col])
  {
    var k := row * NumCols(data) + col;
    CellAtRowMajor(data, row, col);
    assert CellAt(data, k, k / NumCols(data), points[k].x - 1);
  }

  /** Every x lies in [1, numCols]. */
  lemma XInRange(data: seq<seq<real>>, points: seq<XY>)
    requires IsScatter(data, points)
    ensures forall k :: 0 <= k < |points| ==> 1 <= points[k].x <= NumCols(data)
  {
    forall k | 0 <= k < |points| ensures 1 <= points[k].x <= NumCols(data) {
      assert CellAt(data, k, k / NumCols(data), points[k].x - 1);
    }
  }

  /** Without rows there are no points. */
  lemma NoRowsNoPoints(data: seq<seq<real>>, points: seq<XY>)
    requires |data| == 0 && IsScatter(data, points)
    ensures points == []
  {
  }
}
