/**
 * The `Heatmap` component: one point per cell in row-major order with a
 * colour apiece, bubbles whose radius grows with the cell's magnitude,
 * numbered column labels and a tooltip that reads the value back from the grid.
 */
module Heatmap {
  import opened Text
  import opened Grid

  /** A pushed scatter point: column as x, row as y, and the cell's value. */
  datatype CellPoint = CellPoint(x: int, y: int, value: real)

  /** A bubble handed to the chart: the point's coordinates and its radius. */
  datatype Bubble = Bubble(x: int, y: int, r: real)

  /** The colour pushed for every point, kept as the component writes it (its closing `)` and alpha are missing). */
  const PointColour: string := "rgba(33, 150, 243"

  /** Each point pushed so far is the cell at its own row-major position, carrying that cell's value. */
  ghost predicate HeatmapPrefix(data: seq<seq<real>>, points: seq<CellPoint>)
  {
    forall k :: 0 <= k < |points| ==>
      CellAt(data, k, points[k].y, points[k].x) && points[k].value == data[points[k].y][points[k].x]
  }

  /** Point `k` is the `k`-th cell in row-major order, carrying that cell's value. */
  ghost predicate IsHeatmap(data: seq<seq<real>>, points: seq<CellPoint>)
  {
    |points| == |data| * NumCols(data) && HeatmapPrefix(data, points)
  }

  /** Pushing the point of the next cell in row-major order keeps every point in its place. */
  lemma ExtendHeatmap(data: seq<seq<real>>, points: seq<CellPoint>, row: nat, col: nat)
    requires WideEnough(data) && row < |data| && col < NumCols(data)
    requires |points| == row * NumCols(data) + col && HeatmapPrefix(data, points)
    ensures HeatmapPrefix(data, points + [CellPoint(col, row, data[row][col])])
  {
    CellAtRowMajor(data, row, col);
    var next := points + [CellPoint(col, row, data[row][col])];
    forall k | 0 <= k < |next|
      ensures CellAt(data, k, next[k].y, next[k].x) && next[k].value == data[next[k].y][next[k].x]
    {
      if k < |points| {
        assert next[k] == points[k];
      }
    }
  }

  /** The nested cell loop that fills `scatterData` and `backgroundColors` side by side. */
  method BuildPoints(data: seq<seq<real>>) returns (points: seq<CellPoint>, colours: seq<string>)
    requires WideEnough(data)
    ensures IsHeatmap(data, points)
    ensures |colours| == |points|
    ensures forall k :: 0 <= k < |colours| ==> colours[k] == PointColour
  {
    var numRows := |data|;
    var numCols := NumCols(data);
    points, colours := [], [];
    var rowIndex := 0;
    while rowIndex < numRows
      invariant 0 <= rowIndex <= numRows
      invariant |points| == rowIndex * numCols && |colours| == |points|
      invariant HeatmapPrefix(data, points)
      invariant forall k :: 0 <= k < |colours| ==> colours[k] == PointColour
    {
      var colIndex := 0;
      while colIndex < numCols
        invariant 0 <= colIndex <= numCols
        invariant |points| == rowIndex * numCols + colIndex && |colours| == |points|
        invariant HeatmapPrefix(data, points)
        invariant forall k :: 0 <= k < |colours| ==> colours[k] == PointColour
      {
        ExtendHeatmap(data, points, rowIndex, colIndex);
        var value := data[rowIndex][colIndex];
        points := points + [CellPoint(colIndex, rowIndex, value)];
        colours := colours + [PointColour];
        colIndex := colIndex + 1;
      }
      assert rowIndex * numCols + numCols == (rowIndex + 1) * numCols;
      rowIndex := rowIndex + 1;
    }
  }

  function Abs(v: real): real
  {
    if v < 0.0 then -v else v
  }

  /** The bubble radius, the magnitude of the value plus 15: never below 15, and exactly 15 only for a zero cell. */
  function Radius(value: real): (r: real)
    ensures r >= 15.0
    ensures r == 15.0 <==> value == 0.0
    ensures r - 15.0 == value || r - 15.0 == -value
  {
    Abs(value) + 15.0
  }

  /** The chart's dataset: each point becomes a bubble at the same place. */
  function Bubbles(points: seq<CellPoint>): (bubbles: seq<Bubble>)
    ensures |bubbles| == |points|
    ensures forall k :: 0 <= k < |points| ==>
      bubbles[k].x == points[k].x && bubbles[k].y == points[k].y && bubbles[k].r >= 15.0
  {
    seq(|points|, k requires 0 <= k < |points| => Bubble(points[k].x, points[k].y, Radius(points[k].value)))
  }

  /** The x-axis labels `Col 1` ... `Col numCols`. */
  function ColumnLabels(data: seq<seq<real>>): (labels: seq<string>)
    ensures |labels| == NumCols(data)
  {
    NumberedLabels("Col ", NumCols(data))
  }

  /** The column labels are distinct and label `i` names column `i + 1`. */
  lemma ColumnLabelsNumbered(data: seq<seq<real>>)
    ensures forall i, j :: 0 <= i < j < NumCols(data) ==> ColumnLabels(data)[i] != ColumnLabels(data)[j]
    ensures forall i :: 0 <= i < NumCols(data) ==> ColumnLabels(data)[i] == "Col " + NatToString(i + 1)
  {
    NumberedLabelsDistinct("Col ", NumCols(data));
  }

  /** The tooltip's `data[y][x]` for a hovered bubble. */
  function TooltipValue(data: seq<seq<real>>, b: Bubble): real
    requires 0 <= b.y < |data| && 0 <= b.x < |data[b.y]|
  {
    data[b.y][b.x]
  }

  /** Hovering bubble `k` shows the value of point `k`, and the lookup stays inside the grid. */
  lemma TooltipShowsPoint(data: seq<seq<real>>, points: seq<CellPoint>, k: nat)
    requires IsHeatmap(data, points) && k < |points|
    ensures 0 <= Bubbles(points)[k].y < |data| && 0 <= Bubbles(points)[k].x < |data[Bubbles(points)[k].y]|
    ensures TooltipValue(data, Bubbles(points)[k]) == points[k].value
  {
    assert CellAt(data, k, points[k].y, points[k].x);
  }

  /** Cell (`row`, `col`) is drawn at position `row * numCols + col`, at (col, row), sized by its own value. */
  lemma BubbleOfCell(data: seq<seq<real>>, points: seq<CellPoint>, row: nat, col: nat)
    requires WideEnough(data) && IsHeatmap(data, points)
    requires row < |data| && col < NumCols(data)
    ensures row * NumCols(data) + col < |points|
    ensures points[row * NumCols(data) + col] == CellPoint(col, row, data[row][col])
    ensures Bubbles(points)[row * NumCols(data) + col].r == Radius(data[row][col])
  {
    var k := row * NumCols(data) + col;
    CellAtRowMajor(data, row, col);
    assert CellAt(data, k, points[k].y, points[k].x);
  }
}
