/**
 * The CSV export of a 2D array: the cells of each row joined by commas, the
 * rows joined by line breaks, saved under the given name with `.csv` added.
 * Cells are taken as the text
 * JavaScript renders for each number.
 */
module Csv {
  import opened Text

  /** Each row's cells joined by commas, the rows joined by newlines; no trailing newline. */
  function CsvContent(rows: seq<seq<string>>): string
  {
    Join(seq(|rows|, i requires 0 <= i < |rows| => Join(rows[i], ",")), "\n")
  }

  /** The file name the browser saves the export under. */
  function DownloadName(fileName: string): (name: string)
    ensures |name| == |fileName| + 4
    ensures name[..|fileName|] == fileName && EndsWith(name, ".csv")
  {
    fileName + ".csv"
  }

  /** Reads CSV text back: split into lines, then each line into cells. */
  function ParseCsv(text: string): seq<seq<string>>
  {
    var lines := Split(text, '\n');
    seq(|lines|, i requires 0 <= i < |lines| => Split(lines[i], ','))
  }

  /** No cell contains a comma or a line break. */
  predicate PlainCells(rows: seq<seq<string>>)
  {
    forall i, j :: 0 <= i < |rows| && 0 <= j < |rows[i]| ==> ',' !in rows[i][j] && '\n' !in rows[i][j]
  }

  /** With plain cells, n rows give exactly n - 1 line breaks and a row of k cells k - 1 commas. */
  lemma SeparatorCounts(rows: seq<seq<string>>)
    requires |rows| >= 1 && PlainCells(rows)
    ensures multiset(CsvContent(rows))['\n'] == |rows| - 1
    ensures forall i :: 0 <= i < |rows| && |rows[i]| >= 1 ==> multiset(Join(rows[i], ","))[','] == |rows[i]| - 1
  {
    var lines := seq(|rows|, i requires 0 <= i < |rows| => Join(rows[i], ","));
    forall i | 0 <= i < |lines| ensures '\n' !in lines[i] {
      JoinAvoids(rows[i], ",", '\n');
    }
    JoinSeparatorCount(lines, '\n');
    forall i | 0 <= i < |rows| && |rows[i]| >= 1 ensures multiset(Join(rows[i], ","))[','] == |rows[i]| - 1 {
      JoinSeparatorCount(rows[i], ',');
    }
  }

  /**
   * Reading the export back recovers the cells, provided there is at least
   * one row, no row is empty and no cell holds a separator.
   */
  lemma ParseCsvContent(rows: seq<seq<string>>)
    requires |rows| >= 1 && PlainCells(rows)
    requires forall i :: 0 <= i < |rows| ==> |rows[i]| >= 1
    ensures ParseCsv(CsvContent(rows)) == rows
  {
    var lines := seq(|rows|, i requires 0 <= i < |rows| => Join(rows[i], ","));
    forall i | 0 <= i < |lines| ensures '\n' !in lines[i] {
      JoinAvoids(rows[i], ",", '\n');
    }
    SplitJoin(lines, '\n');
    forall i | 0 <= i < |rows| ensures Split(lines[i], ',') == rows[i] {
      SplitJoin(rows[i], ',');
    }
  }

  /** Why the round trip needs a non-empty row: no rows and one empty row both export as "". */
  lemma EmptyExportsCollide()
    ensures CsvContent([]) == "" && CsvContent([[]]) == ""
    ensures ParseCsv("") == [[""]]
  {
    assert Split("", '\n') == [""];
    assert Split("", ',') == [""];
  }
}
