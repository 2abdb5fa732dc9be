/**
 * The tables the dashboard works on: one sheet per social network, one row per
 * (Year, Month) observation, and a handful of metric columns holding counts.
 */
module Sheets {

  /**
   * One spreadsheet row. `month` is the text of the Month cell as read; the
   * metric cells are non-negative counts keyed by column name. A metric column
   * whose cell is empty in this row has no key in `values`.
   */
  datatype Row = Row(year: int, month: string, values: map<string, nat>)

  /** A sheet as read: the set of its column names and its rows, in sheet order. */
  datatype Table = Table(columns: set<string>, rows: seq<Row>)

  /**
   * The numeric contribution of a row to a column sum. An empty cell is a
   * missing value, which a pandas sum skips, so it contributes nothing.
   */
  function Cell(r: Row, metric: string): nat
  {
    if metric in r.values then r.values[metric] else 0
  }
}
