/**
 * Values shared by the fetcher and the range driver: the cells of a table,
 * its rows and the table itself, modelled on what the pandas DataFrame of
 * the original program holds.
 */
module Frames {

  datatype Option<T> = None | Some(value: T)

  /** One cell of a table: an instant in nanoseconds since the epoch (a
      pandas datetime), an integer, a number, a string, or NaN for a cell
      that the row does not carry. */
  datatype Cell = Instant(ns: int) | Integer(n: int) | Number(x: real) | Text(s: string) | Missing

  /** A row maps column names to cells; a column the row lacks is NaN. */
  type Row = map<string, Cell>

  /** A table: its set of column names and its rows, in order. */
  datatype Frame = Frame(columns: set<string>, rows: seq<Row>)

  /** The instant a row carries in its `datetime` column. */
  predicate HasInstant(row: Row)
  {
    "datetime" in row && row["datetime"].Instant?
  }

  /** Every row of the table carries its instant in `datetime`. */
  predicate TimeIndexed(f: Frame)
  {
    forall i :: 0 <= i < |f.rows| ==> HasInstant(f.rows[i])
  }

  function StampOf(row: Row): int
    requires HasInstant(row)
  {
    row["datetime"].ns
  }

  /** The rows are ordered by strictly increasing `datetime`. */
  predicate StampsAscending(f: Frame)
    requires TimeIndexed(f)
  {
    forall i, j :: 0 <= i < j < |f.rows| ==> StampOf(f.rows[i]) < StampOf(f.rows[j])
  }

  /** Row `i` as a record (`to_dict(orient='records')`): one entry per
      column of the table, NaN where the row has no value. */
  function Record(f: Frame, i: nat): (r: map<string, Cell>)
    requires i < |f.rows|
    ensures r.Keys == f.columns
    ensures forall c :: c in f.columns ==> r[c] == (if c in f.rows[i] then f.rows[i][c] else Missing)
  {
    map c | c in f.columns :: if c in f.rows[i] then f.rows[i][c] else Missing
  }
}
