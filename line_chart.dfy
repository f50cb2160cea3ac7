/**
 * The `LineChart` data: one x-axis label per column and one line per row,
 * each row coloured by a hue spread evenly around the colour wheel.
 */
module LineChart {
  import opened Text
  import opened Grid

  /** `hsl(hue, saturation%, lightness%)`. */
  datatype Hsl = Hsl(hue: real, saturation: nat, lightness: nat)

  datatype Dataset = Dataset(legend: string, data: seq<real>, borderColor: Hsl, backgroundColor: Hsl, tension: real)

  datatype ChartData = ChartData(labels: seq<string>, datasets: seq<Dataset>)

  /** `(rowIndex * 360) / numRows`, a real quotient as in JavaScript. */
  function Hue(rowIndex: nat, numRows: nat): real
    requires numRows > 0
  {
    (rowIndex * 360) as real / numRows as real
  }

  /** The line for row `r`. */
  function RowDataset(data: seq<seq<real>>, r: nat): Dataset
    requires r < |data|
  {
    var hue := Hue(r, |data|);
    Dataset("Row " + NatToString(r + 1), data[r], Hsl(hue, 70, 50), Hsl(hue, 70, 70), 0.4)
  }

  function Chart(data: seq<seq<real>>): ChartData
  {
    ChartData(NumberedLabels("Column ", NumCols(data)), seq(|data|, r requires 0 <= r < |data| => RowDataset(data, r)))
  }

  /** A row's hue lies in [0, 360). */
  lemma HueRange(rowIndex: nat, numRows: nat)
    requires rowIndex < numRows
    ensures 0.0 <= Hue(rowIndex, numRows) < 360.0
  {
    var n := numRows as real;
    assert (rowIndex * 360) as real == rowIndex as real * 360.0;
    assert rowIndex as real * 360.0 < n * 360.0;
  }

  /** Later rows get strictly larger hues, so no two rows share a colour. */
  lemma HueIncreasing(r: nat, s: nat, numRows: nat)
    requires r < s < numRows
    ensures Hue(r, numRows) < Hue(s, numRows)
  {
    var n := numRows as real;
    assert (r * 360) as real < (s * 360) as real;
    assert (r * 360) as real / n < (s * 360) as real / n;
  }

  /** There are `numCols` labels, label `i` is `Column i+1`, and they are distinct. */
  lemma LabelsNumbered(data: seq<seq<real>>)
    ensures |Chart(data).labels| == NumCols(data)
    ensures forall i :: 0 <= i < NumCols(data) ==> Chart(data).labels[i] == "Column " + NatToString(i + 1)
    ensures forall i, j :: 0 <= i < j < NumCols(data) ==> Chart(data).labels[i] != Chart(data).labels[j]
  {
    NumberedLabelsDistinct("Column ", NumCols(data));
  }

  /**
   * One dataset per row, labelled `Row r+1`, carrying the row unchanged: its
   * border is `hsl(hue, 70%, 50%)` and its fill `hsl(hue, 70%, 70%)` for the
   * row's hue, which lies in [0, 360), and its tension is 0.4.
   */
  lemma OneDatasetPerRow(data: seq<seq<real>>, r: nat)
    requires r < |data|
    ensures |Chart(data).datasets| == |data|
    ensures Chart(data).datasets[r].legend == "Row " + NatToString(r + 1)
    ensures Chart(data).datasets[r].data == data[r]
    ensures Chart(data).datasets[r].borderColor == Hsl(Hue(r, |data|), 70, 50)
    ensures Chart(data).datasets[r].backgroundColor == Hsl(Hue(r, |data|), 70, 70)
    ensures 0.0 <= Chart(data).datasets[r].borderColor.hue < 360.0
    ensures Chart(data).datasets[r].tension == 0.4
  {
    HueRange(r, |data|);
  }

  /** Distinct rows get distinct labels and distinct colours. */
  lemma RowsDistinguished(data: seq<seq<real>>, r: nat, s: nat)
    requires r < s < |data|
    ensures Chart(data).datasets[r].legend != Chart(data).datasets[s].legend
    ensures Chart(data).datasets[r].borderColor != Chart(data).datasets[s].borderColor
  {
    HueIncreasing(r, s, |data|);
    if Chart(data).datasets[r].legend == Chart(data).datasets[s].legend {
      assert NatToString(r + 1) == ("Row " + NatToString(r + 1))[4..];
      assert NatToString(s + 1) == ("Row " + NatToString(s + 1))[4..];
      NatToStringInjective(r + 1, s + 1);
    }
  }

  /** Without rows there are neither labels nor datasets. */
  lemma EmptyChart()
    ensures Chart([]) == ChartData([], [])
  {
  }
}
