/**
 The scraped statistics table as data. A pandas frame is a sequence of
 rows; a row maps a column name to a cell, and a cell is missing (NaN),
 a number, or text.
 */
module Frames {

  /** One cell of the table. Numbers are kept abstract: nothing in the model computes on them. */
  datatype Cell = Missing | Num(n: int) | Text(s: string)

  type Row = map<string, Cell>

  type Table = seq<Row>

  /** A copy of the column header repeated inside the body of the page's table. */
  predicate IsHeaderRow(row: Row)
  {
    "Age" in row && row["Age"] == Text("Age")
  }

  predicate HasNoMissing(row: Row)
  {
    forall k | k in row :: row[k] != Missing
  }

  /** What a cleaned table promises: no repeated header rows, no missing cells, no `Rk` column. */
  predicate IsClean(t: Table)
  {
    forall i | 0 <= i < |t| :: !IsHeaderRow(t[i]) && HasNoMissing(t[i]) && "Rk" !in t[i]
  }

  /** The cell of `column` is text and one of `options` (pandas `isin` on a list of strings). */
  predicate CellIn(row: Row, column: string, options: seq<string>)
  {
    column in row && row[column].Text? && row[column].s in options
  }
}
