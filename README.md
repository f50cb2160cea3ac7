# npz-web-viewer, modelled in Dafny

This project models the deterministic core of npz-web-viewer. That is a web app for uploading NumPy `.npy`/`.npz` files and then viewing the arrays they hold as tables and charts. The model covers these parts:

- **Upload endpoint** (`Upload`). It reads the allowed-origins setting and picks a loader by file extension. A single `.npy` array goes under the key `"array"`; each array gets a `{size, ndim, data}` summary. 2D arrays larger than 200 × 200 are refused. The files are processed in order: the first error ends the request, and on success the results are keyed by file name. Lookups and overwrites in Python's insertion-ordered `dict` are modelled by `OrderedDict`.
- **CSV export** (`Csv`). It renders the CSV text and the name of the downloaded file.
- **Chart data** (`Scatter3D`, `Heatmap`, `ScatterPlot`, `LineChart`). These are the row-major loops that flatten a 2D array into points, with their labels, radii, hues and tooltip lookup. `Grid` holds the shared column count and row-major index facts.
- **Greyscale image** (`Greyscale`). A min/max scan, the zero-range fallback, and the 0..255 level of each cell written into an RGBA byte array through a running index.
- **Clustering legend** (`Clustering`). The distinct labels in first-seen order, the d3 ordinal colour scale that assigns colour slots, point and centroid colours, and the legend rows.
- **Array views** (`NestedView`, `LegacyTable`, `DataTable`).
  - `NestedView` holds both copies of the nested-array view: the collapsible sections, the tables and the flat list.
  - `LegacyTable` is the older per-file table with its numbered headers.
  - `DataTable` is the newer per-upload table. Its floating button steps through the CSV download buttons with a cursor, and the mounted component writes the buttons into a button array.

Imperative source code is modelled by methods with loops. Each such method is proved against a ghost predicate or a function, and lemmas state the source's promises about that predicate or function:

- `Upload.UploadFiles` against `Ingest`;
- `Scatter3D.Flatten`, `Heatmap.BuildPoints`, `ScatterPlot.BuildPoints`;
- `Greyscale.ScanBounds`, `Greyscale.FillPixels` (in place on an `array`);
- the `DataTable.DownloadNavigator` class.

Pure source code (expressions, `map` or recursion) is modelled by functions.

Cells are modelled as `real`. A 2D array is a `seq<seq<real>>` whose rows are at least as long as the first row (`Grid.WideEnough`), which is exactly what the loops read. Decoding NumPy files (`np.load`, `tolist()`) is a foreign call. It is passed in as the `Upload.Decoders` parameter.

## Model

| member | source | states |
|---|---|---|
| Text.Split | npz_viewer_backend/npz_viewer_backend/app/main.py:11 | `str.split(",")` always gives at least one piece and no piece contains the separator |
| Text.JoinSplit | npz_viewer_backend/npz_viewer_backend/app/main.py:11 | joining the pieces of a split with the separator gives back the original string |
| Text.SplitJoin | npz_viewer_backend/npz_viewer_backend/app/main.py:11 | splitting a join of separator-free parts gives back exactly those parts |
| Text.NonEmpty | npz_viewer_backend/npz_viewer_backend/app/main.py:12-13 | the filter keeps only non-empty pieces, each taken from the input, and loses no non-empty piece |
| Text.NonEmptyIdentity | npz_viewer_backend/npz_viewer_backend/app/main.py:12-13 | when no piece is empty the filter changes nothing |
| Upload.AllowedOriginsArePieces | npz_viewer_backend/npz_viewer_backend/app/main.py:11-13 | the origins are the non-empty comma-separated pieces of the variable in order, none holds a comma, and an unset variable gives none |
| Upload.AllowedOriginsRoundTrip | npz_viewer_backend/npz_viewer_backend/app/main.py:11-13 | a list of non-empty, comma-free origins written with commas is read back unchanged |
| OrderedDict.Get | npz_viewer_backend/npz_viewer_backend/app/main.py:58 | a lookup fails exactly when the key is absent |
| OrderedDict.Put | npz_viewer_backend/npz_viewer_backend/app/main.py:58 | after `d[k] = v`, `k` maps to `v` and every other key keeps its value |
| OrderedDict.KeysCons | npz_viewer_backend/npz_viewer_backend/app/main.py:58 | helper: the keys of a non-empty dictionary are its first key followed by the keys of the rest |
| OrderedDict.PutKeys | npz_viewer_backend/npz_viewer_backend/app/main.py:50-58 | an existing key keeps its position and a new key is appended |
| OrderedDict.PutDistinct | npz_viewer_backend/npz_viewer_backend/app/main.py:50-58 | assignment keeps the keys distinct |
| Upload.SummarizeMembersDistinct | npz_viewer_backend/npz_viewer_backend/app/main.py:50-57 | the archive's summaries have distinct keys |
| Upload.SummarizeMembersLast | npz_viewer_backend/npz_viewer_backend/app/main.py:50-57 | the last member with a given name decides the summary stored under it: shape, its length and the data |
| Upload.SummarizeMembersAbsent | npz_viewer_backend/npz_viewer_backend/app/main.py:50-57 | a name carried by no member is not a key |
| Upload.LastOccurrence | npz_viewer_backend/npz_viewer_backend/app/main.py:50-57 | helper: every member name has a last occurrence |
| Upload.UnsupportedIsRefused | npz_viewer_backend/npz_viewer_backend/app/main.py:69-74 | a name ending in neither `.npz` nor `.npy` fails with status 400 and the message naming the file, whatever the decoders do, before any size check |
| Upload.NpyYieldsOneEntry | npz_viewer_backend/npz_viewer_backend/app/main.py:59-68 | a `.npy` file yields exactly one entry, `"array"`, with shape, dimension count and data, unless it is over the cap, in which case status 413 names `"array"` |
| Upload.NpzYieldsMembers | npz_viewer_backend/npz_viewer_backend/app/main.py:48-58 | a `.npz` archive within the cap yields one entry per member name, holding the last such member's summary, and no other keys |
| Upload.FirstTooLarge | npz_viewer_backend/npz_viewer_backend/app/main.py:77-86 | finds the first array in dict order that exceeds the cap; when there is none, no array exceeds it |
| Upload.CheckSizes | npz_viewer_backend/npz_viewer_backend/app/main.py:77-86 | the size-check loop stops at exactly the first array over the cap, or reports none |
| Upload.SizeCapBoundary | npz_viewer_backend/npz_viewer_backend/app/main.py:24-25 | a 2D array passes exactly when both sides are at most 200 (200 × 200 is accepted); an array that is not 2D always passes |
| Upload.DecoderFailureIs500 | npz_viewer_backend/npz_viewer_backend/app/main.py:48-96 | a failing `.npz` archive decoder or a failing `.npy` array decoder makes the file fail with status 500 whose detail is `An error occurred: ` followed by the decoder's message |
| Upload.IngestPrefixFailure | npz_viewer_backend/npz_viewer_backend/app/main.py:40-41 | once a prefix of the files fails, the whole request fails with the same error |
| Upload.FirstFailure | npz_viewer_backend/npz_viewer_backend/app/main.py:40-86 | finds the first file that fails on its own; when there is none, every file succeeds |
| Upload.IngestFailFast | npz_viewer_backend/npz_viewer_backend/app/main.py:88-91 | the request fails exactly when some file fails, with the first failing file's error; no partial result is returned |
| Upload.IngestDistinct | npz_viewer_backend/npz_viewer_backend/app/main.py:58 | a successful response has distinct file names |
| Upload.IngestLast | npz_viewer_backend/npz_viewer_backend/app/main.py:58-68 | each name maps to what the last file uploaded under it contributed, so a later file overwrites an earlier one |
| Upload.IngestStep | npz_viewer_backend/npz_viewer_backend/app/main.py:40-88 | a successful request is the successful request on all but the last file, extended by the last file's entry |
| Upload.IngestAbsent | npz_viewer_backend/npz_viewer_backend/app/main.py:58-68 | a name that no uploaded file has is absent from the response |
| Upload.LoadAndCheck | npz_viewer_backend/npz_viewer_backend/app/main.py:47-86 | one loop iteration, with its format dispatch, decoding and size check, returns exactly what `ProcessFile` says the file yields or fails with |
| Upload.UploadFiles | npz_viewer_backend/npz_viewer_backend/app/main.py:33-96 | the endpoint's loop, with its early raises, returns exactly the fail-fast aggregate `Ingest` |
| Csv.DownloadName | npz_viewer_client/utils/csv-utils.ts:7 | the saved name is the given name with `.csv` appended |
| Text.JoinSeparatorCount | npz_viewer_client/utils/csv-utils.ts:2 | a join of n ≥ 1 separator-free parts contains the separator exactly n − 1 times |
| Text.JoinAvoids | npz_viewer_client/utils/csv-utils.ts:2 | helper: a character in neither the parts nor the separator does not occur in the join |
| Csv.SeparatorCounts | npz_viewer_client/utils/csv-utils.ts:2 | with plain cells, n ≥ 1 rows give exactly n − 1 line breaks (none trailing), and a k-cell row has k − 1 commas |
| Csv.ParseCsvContent | npz_viewer_client/utils/csv-utils.ts:2 | splitting the export on line breaks and then on commas recovers the cells, when no cell has a comma or line break and every row has a cell |
| Csv.EmptyExportsCollide | npz_viewer_client/utils/csv-utils.ts:2 | no rows and one empty row both export as the empty string, so the round trip needs non-empty rows |
| Grid.NumCols | npz_viewer_client/components/dashboard/charts/scatter3d.tsx:47-48 | the column count is the first row's length, and 0 when there are no rows |
| Grid.CellAtRowMajor | npz_viewer_client/components/dashboard/charts/scatter3d.tsx:53-59 | cell (row, col) has row-major index row · cols + col, below rows · cols, and that index returns to the cell |
| Grid.CellAtIndex | npz_viewer_client/components/dashboard/charts/scatter3d.tsx:53-59 | helper: every index below rows · cols is the row-major index of a cell |
| Scatter3D.Flatten | npz_viewer_client/components/dashboard/charts/scatter3d.tsx:47-59 | the nested loops give x, y and z of length rows · cols, with point k at (k mod cols, k div cols) holding that cell's value |
| Scatter3D.ExtendRowMajor | npz_viewer_client/components/dashboard/charts/scatter3d.tsx:55-57 | pushing (col, row, data[row][col]) at position row · cols + col keeps every point at its own cell |
| Scatter3D.OnData | npz_viewer_client/components/dashboard/charts/scatter3d.tsx:43-62 | null data leaves the state unchanged; other data sets it to the row-major points |
| Scatter3D.PointOfCell | npz_viewer_client/components/dashboard/charts/scatter3d.tsx:53-59 | point row · cols + col has x = col, y = row and z = data[row][col] |
| Scatter3D.CellOfPoint | npz_viewer_client/components/dashboard/scatter3d.tsx:25-31 | point k has x = k mod cols and y = k div cols, both in range, and z = data[y][x] |
| Scatter3D.RowMajorUnique | npz_viewer_client/components/dashboard/scatter3d.tsx:19-31 | the row-major point lists are determined by the data, so both copies of the component compute the same points |
| Scatter3D.EmptyGivesNoPoints | npz_viewer_client/components/dashboard/scatter3d.tsx:16-33 | no rows or no columns gives three empty arrays |
| Heatmap.BuildPoints | npz_viewer_client/components/dashboard/heatmap.tsx:19-32 | one point per cell in row-major order, at (col, row) with that cell's value, and one colour per point, all the same |
| Heatmap.ExtendHeatmap | npz_viewer_client/components/dashboard/heatmap.tsx:28-30 | pushing the point (col, row, value) at position row · cols + col keeps every point at its own cell with its value |
| Heatmap.Radius | npz_viewer_client/components/dashboard/heatmap.tsx:42 | the radius is the value's magnitude plus 15: never below 15, and 15 exactly for a zero cell |
| Heatmap.Bubbles | npz_viewer_client/components/dashboard/heatmap.tsx:39-43 | one bubble per point, at the point's place, with radius at least 15 |
| Heatmap.ColumnLabelsNumbered | npz_viewer_client/components/dashboard/heatmap.tsx:35 | the labels are `Col 1` … `Col cols`, pairwise distinct |
| Heatmap.TooltipShowsPoint | npz_viewer_client/components/dashboard/heatmap.tsx:65-68 | the hover lookup stays inside the grid and shows exactly the value of the hovered point |
| Heatmap.BubbleOfCell | npz_viewer_client/components/dashboard/heatmap.tsx:26-43 | cell (row, col) is point row · cols + col, at (col, row), sized by its own value |
| ScatterPlot.BuildPoints | npz_viewer_client/components/dashboard/charts/scatterplot.tsx:19-31 | rows · cols points in row-major order, point k being (k mod cols + 1, data[k div cols][k mod cols]) |
| ScatterPlot.ExtendScatter | npz_viewer_client/components/dashboard/charts/scatterplot.tsx:26-29 | pushing (col + 1, data[row][col]) at position row · cols + col keeps every point at its own cell |
| ScatterPlot.PointOfCell | npz_viewer_client/components/dashboard/charts/scatterplot.tsx:26-29 | the point of (row, col) is (col + 1, data[row][col]) |
| ScatterPlot.XInRange | npz_viewer_client/components/dashboard/charts/scatterplot.tsx:27 | every x lies in 1 .. cols |
| ScatterPlot.NoRowsNoPoints | npz_viewer_client/components/dashboard/charts/scatterplot.tsx:19-20 | empty data produces no points |
| LineChart.HueRange | npz_viewer_client/components/dashboard/charts/chart.tsx:30-31 | the hue r · 360 / rows lies in [0, 360) |
| LineChart.HueIncreasing | npz_viewer_client/components/dashboard/charts/chart.tsx:30-31 | the hue strictly increases with the row index |
| LineChart.LabelsNumbered | npz_viewer_client/components/dashboard/charts/chart.tsx:20-24 | there are cols labels, label i is `Column i+1`, and they are pairwise distinct |
| LineChart.OneDatasetPerRow | npz_viewer_client/components/dashboard/charts/chart.tsx:27-33 | one dataset per row, labelled `Row r+1`, holding the row unchanged, with border hsl(Hue(r, rows), 70%, 50%) and fill hsl(Hue(r, rows), 70%, 70%), where Hue(r, rows) = r · 360 / rows lies in [0, 360), and tension 0.4 |
| LineChart.RowsDistinguished | npz_viewer_client/components/dashboard/charts/chart.tsx:27-31 | two rows get different labels and different line colours |
| LineChart.EmptyChart | npz_viewer_client/components/dashboard/charts/chart.tsx:20-24 | empty data gives no labels and no datasets |
| Greyscale.ScanBounds | npz_viewer_client/components/dashboard/charts/greyscale.tsx:24-32 | the nested scan finds no bounds exactly when there are no cells; otherwise min ≤ every cell ≤ max, and both are cells |
| Greyscale.BoundsUnique | npz_viewer_client/components/dashboard/charts/greyscale.tsx:24-32 | the bounds the scan finds are the only ones satisfying that description |
| Greyscale.Range | npz_viewer_client/components/dashboard/charts/greyscale.tsx:34 | the range is max − min, or 1 when they are equal, and is positive whenever min ≤ max |
| Greyscale.Round | npz_viewer_client/components/dashboard/charts/greyscale.tsx:41-43 | rounding lands within half a unit of its argument, with halves rounding up |
| Greyscale.LevelInRange | npz_viewer_client/components/dashboard/charts/greyscale.tsx:41-43 | the level of a value between min and max lies in 0..255 |
| Greyscale.LevelMonotone | npz_viewer_client/components/dashboard/charts/greyscale.tsx:41-43 | a larger value never gets a darker level |
| Greyscale.MinIsBlack | npz_viewer_client/components/dashboard/charts/greyscale.tsx:41-43 | the minimum maps to 0 |
| Greyscale.MaxIsWhite | npz_viewer_client/components/dashboard/charts/greyscale.tsx:34-43 | when max > min, the maximum maps to 255 |
| Greyscale.ConstantIsBlack | npz_viewer_client/components/dashboard/charts/greyscale.tsx:34-43 | a constant array maps to level 0 through the range fallback |
| Greyscale.PixelBytes | npz_viewer_client/components/dashboard/charts/greyscale.tsx:38-49 | pixel (i, j) occupies bytes 4(i · cols + j) .. 4(i · cols + j) + 3: R = G = B = the cell's level, A = 255 |
| Greyscale.WritePixel | npz_viewer_client/components/dashboard/charts/greyscale.tsx:44-47 | four writes at the running index, three grey and one opaque alpha; the index moves on by 4 and no other byte changes |
| Greyscale.FillPixels | npz_viewer_client/components/dashboard/charts/greyscale.tsx:38-49 | the fill loop ends with the index at 4 · rows · cols and the buffer holding the grey image of the data |
| Greyscale.ExtendImage | npz_viewer_client/components/dashboard/charts/greyscale.tsx:38-49 | writing pixel p's four bytes after pixels 0 .. p−1 extends the grey image by one pixel |
| Greyscale.Render | npz_viewer_client/components/dashboard/charts/greyscale.tsx:10-52 | no data, canvas or context: nothing drawn. Zero columns: `createImageData(0, rows)` throws. Otherwise the canvas is cols × rows and holds the grey image for the data's own bounds |
| Greyscale.ImageExtremes | npz_viewer_client/components/dashboard/charts/greyscale.tsx:34-47 | every grey byte is in 0..255 and alpha is 255; the minimum cell is black, and the maximum is white when max > min |
| Clustering.IndexOf | npz_viewer_client/components/dashboard/ml/ClusteringVisualization.tsx:41 | helper: gives the first position of a present element |
| Clustering.UniqueLabels | npz_viewer_client/components/dashboard/ml/ClusteringVisualization.tsx:41 | the distinct labels have no duplicates and contain exactly the labels |
| Clustering.UniqueLabelsOrder | npz_viewer_client/components/dashboard/ml/ClusteringVisualization.tsx:41 | the distinct labels keep first-occurrence order |
| Clustering.KeysDistinct | npz_viewer_client/components/dashboard/ml/ClusteringVisualization.tsx:46 | distinct labels give distinct scale keys |
| Clustering.LegendText | npz_viewer_client/components/dashboard/ml/ClusteringVisualization.tsx:132 | `Noise` for −1, `Cluster n` for any other n |
| Clustering.LegendTextInjective | npz_viewer_client/components/dashboard/ml/ClusteringVisualization.tsx:132 | different labels get different legend texts |
| Clustering.Scale | npz_viewer_client/components/dashboard/ml/ClusteringVisualization.tsx:44-47 | the ordinal scale appends an unknown key to its domain and returns one of ten colour slots, the key's position in the domain modulo 10 |
| Clustering.ScaleAllGrows | npz_viewer_client/components/dashboard/ml/ClusteringVisualization.tsx:44-47 | successive scale calls only append to the domain |
| Clustering.ScaleAllFill | npz_viewer_client/components/dashboard/ml/ClusteringVisualization.tsx:44-47 | the i-th call's slot is the key's position in the final domain, modulo 10 |
| Clustering.ScaleAllKnown | npz_viewer_client/components/dashboard/ml/ClusteringVisualization.tsx:44-47 | keys already in the domain leave it unchanged |
| Clustering.KeyPlace | npz_viewer_client/components/dashboard/ml/ClusteringVisualization.tsx:46 | distinct label k sits at position k of any domain that starts with the labels' keys |
| Clustering.StageDomains | npz_viewer_client/components/dashboard/ml/ClusteringVisualization.tsx:41-124 | the domain starts as the labels' keys; the point and centroid colour calls only append to it, and the legend's calls add nothing further |
| Clustering.RenderGuards | npz_viewer_client/components/dashboard/ml/ClusteringVisualization.tsx:21-87 | nothing is drawn without an `<svg>`; the effect throws exactly when there are fewer labels than points |
| Clustering.RenderLegend | npz_viewer_client/components/dashboard/ml/ClusteringVisualization.tsx:115-133 | one legend row per distinct label; row k sits at offset 20k, in colour slot k mod 10, with that label's legend text |
| Clustering.PointFill | npz_viewer_client/components/dashboard/ml/ClusteringVisualization.tsx:85-87 | point i gets colour slot k mod 10 of its label's legend row k |
| Clustering.RenderPointColour | npz_viewer_client/components/dashboard/ml/ClusteringVisualization.tsx:85-87 | the drawn scene has one fill per point, and point i takes its label's legend colour |
| Clustering.RenderCentroidColour | npz_viewer_client/components/dashboard/ml/ClusteringVisualization.tsx:93-103 | centroid c, keyed by `c`, takes the legend colour of cluster c |
| Clustering.RenderCentroidCount | npz_viewer_client/components/dashboard/ml/ClusteringVisualization.tsx:93 | centroids are drawn, one fill each, only when the algorithm is `kmeans` and centroids are given |
| NestedView.Spans | npz_viewer_client/components/dashboard/data-table/MultiDimensionalArray.tsx:53-60 | one span per element, in order, followed by `, ` exactly when it is not the last |
| NestedView.RenderDispatch | npz_viewer_client/components/dashboard/data-table/MultiDimensionalArray.tsx:22-51 | collapsible exactly when `data[0]` and `data[0][0]` are arrays; table when only `data[0]` is; flat list for any other array; crash for a bare number |
| NestedView.CollapsibleChildren | npz_viewer_client/components/dashboard/data-table/MultiDimensionalArray.tsx:22-48 | titled `Dimension depth+1 (n items)`, one child `Index i:` per item; items leading with an array recurse at depth + 1, others become table `dim-(depth+1)-index-i` |
| NestedView.MatrixIsOneTable | npz_viewer_client/components/dashboard/data-table/MultiDimensionalArray.tsx:49-50 | a matrix is one table named `dim-depth` (unnamed in the older copy) |
| NestedView.LevelsBounded | npz_viewer_client/components/dashboard/data-table/MultiDimensionalArray.tsx:22-40 | each collapsible level consumes a level of nesting: sections nest at most nesting depth − 2 deep |
| NestedView.MaxIsOne | npz_viewer_client/components/dashboard/data-table/MultiDimensionalArray.tsx:39-40 | helper: the deepest child level is attained by some child |
| NestedView.CopiesAgree | npz_viewer_client/components/dashboard/data-table.tsx:72-112 | the older copy of the view equals the newer one with every table name erased |
| NestedView.ConcatSeparated | npz_viewer_client/components/dashboard/data-table.tsx:103-107 | writing each element with a separator after all but the last is the join of the elements |
| NestedView.FlatListText | npz_viewer_client/components/dashboard/data-table.tsx:101-108 | a flat list reads `[`, the elements joined by `, `, then `]`: separators only between elements |
| LegacyTable.Table2D | npz_viewer_client/components/dashboard/data-table.tsx:45-70 | a table is produced exactly when there is a first row and every row is an array |
| LegacyTable.TableHeaders | npz_viewer_client/components/dashboard/data-table.tsx:50-54 | the header has `data[0].length` distinct cells, cell k reading `Column k+1` |
| LegacyTable.TableRows | npz_viewer_client/components/dashboard/data-table.tsx:58-66 | one table row per item, each showing exactly that item's cells in order |
| LegacyTable.SectionDispatch | npz_viewer_client/components/dashboard/data-table.tsx:31-38 | one section per entry with its key and ndim; ndim 2 renders the table, anything else the unnamed nested view at depth 0 |
| LegacyTable.SectionKeys | npz_viewer_client/components/dashboard/data-table.tsx:31-32 | distinct entry keys give distinct section keys |
| LegacyTable.ScalarCrashes | npz_viewer_client/components/dashboard/data-table.tsx:37 | a scalar array reaches the nested view as a bare number and the render throws |
| DataTable.CsvName | npz_viewer_client/components/dashboard/data-table/DataTable.tsx:83-91 | the export name is `fileName-arrayName`, with the dash right after the file name |
| DataTable.SectionsDispatch | npz_viewer_client/components/dashboard/data-table/DataTable.tsx:63-101 | one section per file, one block per array; only an ndim 2 array gets a download button, named `fileName-arrayName`; others go to the named nested view at depth 0 |
| DataTable.DownloadFileName | npz_viewer_client/components/dashboard/data-table/DataTable.tsx:90-92 | the button saves `fileName-arrayName.csv` |
| DataTable.Assign | npz_viewer_client/components/dashboard/data-table/DataTable.tsx:88 | writing at an index past the end grows the button array to that index + 1, leaving holes in between; every other slot keeps its button |
| DataTable.ButtonsAsWritten | npz_viewer_client/components/dashboard/data-table/DataTable.tsx:68-89 | the component registers exactly the 2D arrays' buttons in render order; only their slots are wrong |
| DataTable.Registrations | npz_viewer_client/components/dashboard/data-table/DataTable.tsx:68-89 | the corrected registration gives the k-th download button slot k |
| DataTable.RegistrationsFillTable | npz_viewer_client/components/dashboard/data-table/DataTable.tsx:68-89 | with the corrected slots, slot k holds the k-th download button and the array has no holes |
| DataTable.Step | npz_viewer_client/components/dashboard/data-table/DataTable.tsx:41-50 | a click keeps an in-range cursor in range; when it scrolls, it scrolls to the button under the cursor; when it scrolls nowhere, the cursor stays |
| DataTable.StepCases | npz_viewer_client/components/dashboard/data-table/DataTable.tsx:41-50 | no scroller or no buttons: no-op. A button at the cursor: scroll to it and move to (cursor + 1) mod len, which stays in range. A hole: nothing moves |
| DataTable.DenseStep | npz_viewer_client/components/dashboard/data-table/DataTable.tsx:43-47 | without holes, a click scrolls to the button under the cursor and advances it modulo the slot count |
| DataTable.DenseCycles | npz_viewer_client/components/dashboard/data-table/DataTable.tsx:43-47 | without holes, after n clicks the cursor is at (cursor + n) mod len |
| DataTable.DenseVisitsAll | npz_viewer_client/components/dashboard/data-table/DataTable.tsx:43-47 | without holes, the first len clicks visit every button once, in slot order |
| DataTable.HoleFreezes | npz_viewer_client/components/dashboard/data-table/DataTable.tsx:43-45 | a hole under the cursor stops navigation: no later click scrolls anywhere or moves the cursor |
| DataTable.DownloadNavigator.constructor | npz_viewer_client/components/dashboard/data-table/DataTable.tsx:22-24 | starts with no buttons and the cursor at 0 |
| DataTable.DownloadNavigator.Register | npz_viewer_client/components/dashboard/data-table/DataTable.tsx:87-89 | one ref callback: the button array becomes the JavaScript array write; the cursor and scroller stay |
| DataTable.DownloadNavigator.RegisterAll | npz_viewer_client/components/dashboard/data-table/DataTable.tsx:87-89 | the ref callbacks of one render, in order, give the button array `ButtonTable` of them |
| DataTable.DownloadNavigator.ScrollToNext | npz_viewer_client/components/dashboard/data-table/DataTable.tsx:41-50 | one click returns the target and moves the cursor as `Step` says; the buttons stay; the cursor stays in range |
| DataTable.Mount | npz_viewer_client/components/dashboard/data-table/DataTable.tsx:21-104 | after the first render (with corrected slots), the cursor is 0 and slot k holds the k-th download button, with no holes |
| DataTable.HoleFreezesNavigation | npz_viewer_client/components/dashboard/data-table/DataTable.tsx:41-88 | as written, a file with a 3D array and then a 2D array leaves slot 0 a hole, so the floating button never scrolls |
| DataTable.SlotsCollide | npz_viewer_client/components/dashboard/data-table/DataTable.tsx:63-88 | as written, file 0's second 2D array and file 1's first share slot 1; the later write wins, and `f-b` cannot be reached |
| DataTable.CorrectedExamples | npz_viewer_client/components/dashboard/data-table/DataTable.tsx:63-88 | with the corrected slots, both of these uploads put every download button in reach |

## Left out

- **The analysis engine.** Clustering, PCA and normalisation are not in these files; the client only reaches them over HTTP. `ClusteringVisualization` takes their results (labels, centroids) as inputs.
- **NumPy decoding.** The `.npy`/`.npz` formats, `np.load` and `tolist()` are foreign calls and are modelled as the `Upload.Decoders` parameter. A failing decoder stands for any exception they raise.
- **Server plumbing** is I/O or framework configuration:
  - the temporary files written and removed around each upload. Every write is taken to succeed, so `Upload.UnsupportedIsRefused`'s 400 before any decoding assumes the write that comes before the extension check did not fail; a failed write gives a 500 even for a name that would have been refused;
  - the CORS middleware itself (only the origin list is modelled);
  - dotenv loading;
  - the `print` to the log;
  - FastAPI's own 422 for a malformed request;
  - the `/` hello route.
- **Number formatting.** `toFixed(4)` and number-to-string conversion are not modelled.
  - CSV cells are the already-rendered strings.
  - The flat-list text takes the rendering function as a parameter (`show`).
  - Hues are exact reals, not the printed `hsl(...)` strings.
- **Floating point.** Cells and arithmetic are exact reals. `NaN`, `Infinity`, rounding error and the `Uint8ClampedArray` clamp are not modelled; the clamp is never needed, since every level is proved to lie in 0..255.
- **Drawing libraries.** d3 selections, axes and extent padding, Plotly, Chart.js options, Lenis smooth scrolling and `putImageData` are not modelled.
  - The scene records only the colour slots of points, centroids and legend rows.
  - `schemeCategory10` colours are their slot numbers 0..9.
  - The greyscale result is the canvas size and its byte array.
- **Rendering details.** React rendering, the `isOpen` toggles and `Table2d.tsx`'s memoised cell rendering are not modelled. A newer-table block records the data it hands to that table.
- **Runtime edge cases.**
  - JavaScript objects list integer-like keys first; the model keeps insertion order throughout.
  - React attaches the download refs in commit order; this is taken to be render order.
  - Rows only need to be as long as the first row (`Grid.WideEnough`); a shorter row, which reads `undefined` in the source, is excluded by that precondition.
  - `Greyscale.Render` does not model the `!data` guard, because `data` is always given.
  - `Scatter3D.OnData` takes null data as `None`.
  - Boolean and string leaves in the nested data are not modelled; leaves are numbers.
  - Inside a collapsible level, an item that does not lead with an array becomes a `Table` leaf of `NestedView.Render`, and the table component then reads `data[0].map`. On ragged data such an item is empty or a number, and that read throws; the view records the `Table` leaf without deciding whether the table itself renders (`LegacyTable.Table2D` states that condition for the table component).
- **Heatmap.PointColour** keeps the colour string exactly as written: its closing parenthesis and alpha are missing, and what Chart.js then paints is not modelled.
- **`npz_viewer_backend/tests/upload_test.py`.** It does not match `main.py` (field name, response nesting, message text). The model follows `main.py`.
- **Network clients, skeletons and site metadata.** The upload panels and forms, the ML panels, the placeholders based on `Math.random()`, and the layout, manifest, sitemap and not-found pages hold no logic beyond fetch calls and markup.

## Findings

| source | as written | input that shows it | evidently intended | confidence | as-written member | corrected member |
|---|---|---|---|---|---|---|
| npz_viewer_client/components/dashboard/data-table/DataTable.tsx:63-88 | the download slot is `fileIndex + arrayIndex`, where `arrayIndex` counts all arrays of the file, 2D or not | one file `f` holding a 3D array `a`, then a 2D array `b`: the only button lands in slot 1 and slot 0 stays a hole, so the cursor, starting at 0, never moves and no click scrolls | the k-th download button of the page in slot k | high (not executed) | DataTable.HoleFreezesNavigation | DataTable.RegistrationsFillTable |
| npz_viewer_client/components/dashboard/data-table/DataTable.tsx:63-88 | two (file, array) positions with the same sum share a slot, and the later ref write wins | file `f` with 2D arrays `a`, `b` and file `g` with 2D array `c`: `f-b` and `g-c` both take slot 1, the array becomes [`f-a`, `g-c`], and `f-b` is unreachable | one slot per download button, none overwritten | high (not executed) | DataTable.SlotsCollide | DataTable.Mount |
