/**
 * The sheets of the active spreadsheet and the one call the script makes on the
 * spreadsheet itself, `getSheetByName`.
 */
module Sheets {
  import opened Wrappers
  import opened Cells
  import opened Protocol

  /** A sheet: its cell grid, changed in place by range writes and row deletions. */
  class Sheet {
    var cells: Grid

    constructor (cells: Grid)
      ensures this.cells == cells
    {
      this.cells := cells;
    }

    /** `getRange(row, col, 1, |values|).setValues([values])`: ok is false when the
        service rejects the range, and then no cell changes. */
    method SetValues(row: int, col: int, values: seq<Value>) returns (ok: bool)
      modifies this
      ensures ok == RangeFits(old(cells), row, col, |values|)
      ensures cells == if ok then WriteRange(old(cells), row, col, values) else old(cells)
    {
      ok := RangeFits(cells, row, col, |values|);
      if ok {
        cells := WriteRange(cells, row, col, values);
      }
    }

    /** `deleteRow(row)`: ok is false when the service rejects the row number. */
    method DeleteRow(row: int) returns (ok: bool)
      modifies this
      ensures ok == RowExists(old(cells), row)
      ensures cells == if ok then Cells.DeleteRow(old(cells), row) else old(cells)
    {
      ok := RowExists(cells, row);
      if ok {
        cells := Cells.DeleteRow(cells, row);
      }
    }
  }

  /** The active spreadsheet: its sheets by name. */
  type Spreadsheet = map<string, Sheet>

  datatype Resolved = Found(sheet: Sheet) | Missing(failure: Failure)

  /** `getSheetByName(sheetName)`: a missing or empty name fails before any lookup,
      an unknown name fails with that name, and a known name gives its sheet. */
  function GetSheetByName(book: Spreadsheet, name: Option<string>): (r: Resolved)
    ensures name.None? || name.value == "" ==> r == Missing(NoSheetName)
    ensures name.Some? && name.value != "" && name.value !in book ==> r == Missing(NoSuchSheet(name.value))
    ensures r.Found? <==> name.Some? && name.value != "" && name.value in book
    ensures r.Found? ==> r.sheet == book[name.value]
  {
    if name.None? || name.value == "" then Missing(NoSheetName)
    else if name.value !in book then Missing(NoSuchSheet(name.value))
    else Found(book[name.value])
  }

  /** `e.parameter[key]`: the query parameter, or undefined. */
  function Param(params: map<string, string>, key: string): Option<string>
  {
    if key in params then Some(params[key]) else None
  }
}
