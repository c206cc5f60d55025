/** The rows of a table's store, as its operations see them. */
module TableRows {
  // A cached sort key: the code units of a string, or a number as a list of one.
  type Key = seq<int>

  // A row: its data object, its row node (-1 while there is none), its sort keys and its searchable
  // text by column, and whether that text has been cached since the data last changed.
  datatype Row = Row(data: int, node: int, keys: seq<Key>, cells: seq<string>, cached: bool)

  function KeyOf(rows: seq<Row>, r: int, col: nat): Key {
    if 0 <= r < |rows| && col < |rows[r].keys| then rows[r].keys[col] else []
  }

  // What a search of a column tests; a missing cell reads as undefined.
  function CellText(row: Row, col: nat): string {
    if col < |row.cells| then row.cells[col] else "undefined"
  }

  // What the global search tests: the cells joined by two spaces.
  function RowText(row: Row): string { Joined(row.cells) }

  function Joined(cells: seq<string>): string {
    if cells == [] then ""
    else if |cells| == 1 then cells[0]
    else Joined(cells[..|cells| - 1]) + "  " + cells[|cells| - 1]
  }
}
