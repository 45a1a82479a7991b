/** The values xlrd hands out for spreadsheet cells, and the two Python
    operations the importers apply to them: truthiness and `int()`. */
module Cells {
  import opened Wrappers
  import opened Strings

  /** A cell value: a number (xlrd reads numbers as floats; only integral
      values are modelled) or a text. An empty cell reads as `Text("")`. */
  datatype Cell = Number(n: int) | Text(s: string)

  /** A sheet is its rows of cells, as xlrd pads them. */
  type Sheet = seq<seq<Cell>>

  /** Python truthiness of a cell value: zero and the empty string are false. */
  predicate Truthy(c: Cell) {
    match c
    case Number(n) => n != 0
    case Text(s) => s != ""
  }

  /** `int(value)`: numbers are kept, texts are parsed, anything else raises
      ValueError. */
  function CellToInt(c: Cell): (r: Result<int>)
    ensures c.Number? ==> r == Success(c.n)
    ensures r.Failure? ==> r.error == ValueError
  {
    match c
    case Number(n) => Success(n)
    case Text(s) => ParseInt(s)
  }

  /** `sheet.cell(i, j).value`: IndexError outside the sheet. */
  function CellAt(sheet: Sheet, i: nat, j: nat): (r: Result<Cell>)
    ensures r.Success? <==> i < |sheet| && j < |sheet[i]|
    ensures r.Success? ==> r.value == sheet[i][j]
    ensures r.Failure? ==> r.error == IndexError
  {
    if i < |sheet| && j < |sheet[i]| then Success(sheet[i][j]) else Failure(IndexError)
  }
}
