/** Values shared by every part of the departure board: Python's `None`-or-value
    and a timetable CSV row as `csv.DictReader` produces it (column name to cell text). */
module Rows {

  datatype Option<+T> = None | Some(value: T)

  /** One CSV row: header name to the cell text, with the spaces at the start of
      each cell dropped (`skipinitialspace=True`) and trailing whitespace kept. */
  type Row = map<string, string>

  /** `row.get(key) == value`: false when the column is missing. */
  predicate CellIs(row: Row, key: string, value: string)
  {
    key in row && row[key] == value
  }
}
