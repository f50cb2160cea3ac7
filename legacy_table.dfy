/**
 * The older `DataTable` component: one section per array of a single file,
 * a 2D array shown as a table with numbered column headers, any other array
 * through the unnamed copy of the nested view.
 */
module LegacyTable {
  import opened Wrappers
  import opened Text
  import opened OrderedDict
  import opened Arrays
  import opened NestedView

  /** A rendered table: its header cells and, per row, the cells it shows. */
  datatype Grid2D = Grid2D(headers: seq<string>, rows: seq<seq<Nested>>)

  /** Every item is itself an array, so `row.map` works on each. */
  predicate AllRowsArrays(data: Nested)
    requires data.Arr?
  {
    forall r :: 0 <= r < |data.items| ==> data.items[r].Arr?
  }

  /**
   * `Table2D`: one header cell per element of the first row, one body row per
   * item holding that item's cells. Rendering throws unless there is a first
   * row and every row is an array; that is `None` here.
   */
  function Table2D(data: Nested): (t: Option<Grid2D>)
    ensures t.Some? <==> data.Arr? && |data.items| > 0 && AllRowsArrays(data)
  {
    if data.Arr? && |data.items| > 0 && AllRowsArrays(data) then
      Some(Grid2D(
        NumberedLabels("Column ", |data.items[0].items|),
        seq(|data.items|, r requires 0 <= r < |data.items| => data.items[r].items)))
    else None
  }

  /** The header has one distinct cell `Column k+1` per element of the first row. */
  lemma TableHeaders(data: Nested)
    requires Table2D(data).Some?
    ensures |Table2D(data).value.headers| == |data.items[0].items|
    ensures forall k :: 0 <= k < |data.items[0].items| ==> Table2D(data).value.headers[k] == "Column " + NatToString(k + 1)
    ensures forall j, k :: 0 <= j < k < |data.items[0].items| ==> Table2D(data).value.headers[j] != Table2D(data).value.headers[k]
  {
    NumberedLabelsDistinct("Column ", |data.items[0].items|);
  }

  /** Each row shows exactly its own cells, in order, and there is one row per item. */
  lemma TableRows(data: Nested)
    requires Table2D(data).Some?
    ensures |Table2D(data).value.rows| == |data.items|
    ensures forall r :: 0 <= r < |data.items| ==> Table2D(data).value.rows[r] == data.items[r].items
  {
  }

  datatype Body = Matrix(table: Option<Grid2D>) | Deeper(view: View)

  datatype Section = Section(key: string, ndim: nat, body: Body)

  /** One section per entry of the file's arrays, in entry order. */
  function Sections(data: Dict<string, Summary>): (sections: seq<Section>)
    ensures |sections| == |data|
  {
    seq(|data|, i requires 0 <= i < |data| =>
      Section(data[i].0, data[i].1.ndim,
        if data[i].1.ndim == 2 then Matrix(Table2D(data[i].1.data)) else Deeper(Render(data[i].1.data, 0, false))))
  }

  /**
   * Section `i` carries entry `i`'s key and dimension count; a 2D array
   * renders its table, anything else the nested view from depth 0.
   */
  lemma SectionDispatch(data: Dict<string, Summary>, i: nat)
    requires i < |data|
    ensures Sections(data)[i].key == data[i].0 && Sections(data)[i].ndim == data[i].1.ndim
    ensures Sections(data)[i].body.Matrix? <==> data[i].1.ndim == 2
    ensures data[i].1.ndim == 2 ==> Sections(data)[i].body.table == Table2D(data[i].1.data)
    ensures data[i].1.ndim != 2 ==> Sections(data)[i].body.view == Render(data[i].1.data, 0, false)
  {
  }

  /** The section keys are the entries' keys, so distinct keys give distinct sections. */
  lemma SectionKeys(data: Dict<string, Summary>)
    requires DistinctKeys(data)
    ensures forall i, j :: 0 <= i < j < |data| ==> Sections(data)[i].key != Sections(data)[j].key
  {
  }

  /** A scalar (`ndim` 0) array reaches the nested view as a bare number, and `data.map` throws. */
  lemma ScalarCrashes(data: Dict<string, Summary>, i: nat)
    requires i < |data| && data[i].1.ndim != 2 && data[i].1.data.Num?
    ensures Sections(data)[i].body == Deeper(Crash)
  {
  }
}
