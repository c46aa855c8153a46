/**
  A parsed worksheet as the spreadsheet reader delivers it with `header: 1`:
  a sequence of rows, each a sequence of loosely typed cells. Row 0 is the
  header row.
 */
module Cells {
  import opened Ascii

  /** A cell value; `Empty` also stands for an index past the end of a row (`undefined`). */
  datatype Cell = Empty | Text(s: string) | Num(n: int)

  type Row = seq<Cell>

  type Table = seq<Row>

  /** JavaScript truthiness of a cell: the empty string and the number 0 are falsy. */
  predicate Truthy(c: Cell) {
    match c
    case Empty => false
    case Text(s) => s != []
    case Num(n) => n != 0
  }

  /** `cell.toString()`, which the scripts only ever call on a truthy cell. */
  function Stringify(c: Cell): (s: string)
    requires Truthy(c)
    ensures s != []
  {
    match c
    case Text(s) => s
    case Num(n) => IntToString(n)
  }

  /** `row[i]`: an index outside the row, including -1, reads `undefined`. */
  function At(row: Row, i: int): (c: Cell)
    ensures 0 <= i < |row| ==> c == row[i]
    ensures !(0 <= i < |row|) ==> c == Empty
  {
    if 0 <= i < |row| then row[i] else Empty
  }

  /** `cell ? cell.toString().trim() : ''`. */
  function TrimmedText(c: Cell): (s: string)
    ensures !Truthy(c) ==> s == []
    ensures Truthy(c) ==> IsTrimOf(s, Stringify(c))
  {
    if Truthy(c) then Trim(Stringify(c)) else []
  }

  /** `rawData[0] || []`: the header row, or no headers at all for an empty sheet. */
  function Headers(t: Table): Row {
    if t == [] then [] else t[0]
  }
}
