/**
 * The spreadsheet abstraction: cells, rows and sheets as the POI user model
 * presents them, and the type-directed comparison of a cell with a Java value
 * that every row search uses.
 */
module Cells {
  import opened Outcomes
  import opened JavaNum
  import opened Values

  /**
   * A cell.  `Blank` is a cell that exists but holds nothing, as made by
   * `createCell` or `MissingCellPolicy.CREATE_NULL_AS_BLANK`; it still counts
   * as present.  A date is kept as its own kind of cell.
   */
  datatype Cell = Str(s: string) | Num(n: int) | Bool(b: bool) | Date(millis: int) | Blank

  /** A row: its cells by column index.  A missing key is a `null` cell. */
  type Row = map<nat, Cell>

  /** A sheet: its rows by row index.  `None` is a `null` row. */
  type Sheet = seq<Option<Row>>

  /** `row.getCell(col)`; a negative column has no cell. */
  function GetCell(row: Row, col: int): Option<Cell>
  {
    if col >= 0 && col as nat in row then Some(row[col as nat]) else None
  }

  /** `sheet.getRow(i)`. */
  function GetRow(s: Sheet, i: int): Option<Row>
  {
    if 0 <= i < |s| then s[i] else None
  }

  /** `sheet.getLastRowNum()`: the index of the last present row, -1 when there is none. */
  function LastRowNum(s: Sheet): (r: int)
    ensures -1 <= r < |s|
    ensures r >= 0 ==> s[r].Some?
    ensures forall j :: r < j < |s| ==> s[j].None?
  {
    if |s| == 0 then -1
    else if s[|s| - 1].Some? then |s| - 1
    else LastRowNum(s[..|s| - 1])
  }

  /** `sheet.getFirstRowNum()`: the index of the first present row, `|s|` when no row is present. */
  function FirstRowNum(s: Sheet): (r: nat)
    ensures r <= |s|
    ensures r < |s| ==> s[r].Some?
    ensures forall j :: 0 <= j < r && j < |s| ==> s[j].None?
  {
    if |s| == 0 || s[0].Some? then 0
    else 1 + FirstRowNum(s[1..])
  }

  /** `sheet.getPhysicalNumberOfRows()`: how many rows are present. */
  function PhysicalRows(s: Sheet): (r: nat)
    ensures r <= |s|
    ensures r == 0 <==> forall j :: 0 <= j < |s| ==> s[j].None?
  {
    if |s| == 0 then 0
    else PhysicalRows(s[..|s| - 1]) + (if s[|s| - 1].Some? then 1 else 0)
  }

  /** A sheet with a row at `i` that every search would visit lies within first..last. */
  lemma PresentRowWithinBounds(s: Sheet, i: nat)
    requires i < |s| && s[i].Some?
    ensures FirstRowNum(s) <= i <= LastRowNum(s)
    ensures PhysicalRows(s) > 0
  {
  }

  // Reading a cell as POI does.  A blank cell reads as "", 0 or false; a cell
  // of another kind makes POI throw IllegalStateException, which is `None` here.

  /** `cell.getRichStringCellValue().getString()`. */
  function StringOf(c: Cell): Option<string>
  {
    match c
    case Str(s) => Some(s)
    case Blank => Some("")
    case _ => None
  }

  /** `cell.getNumericCellValue()`. */
  function NumberOf(c: Cell): Option<int>
  {
    match c
    case Num(n) => Some(n)
    case Blank => Some(0)
    case _ => None
  }

  /** `cell.getBooleanCellValue()`. */
  function BoolOf(c: Cell): Option<bool>
  {
    match c
    case Bool(b) => Some(b)
    case Blank => Some(false)
    case _ => None
  }

  /** `cell.getDateCellValue()`: `Some(None)` is the `null` a blank cell gives. */
  function DateOf(c: Cell): Option<Option<int>>
  {
    match c
    case Date(ms) => Some(Some(ms))
    case Blank => Some(None)
    case _ => None
  }

  /**
   * `ExcelUtils.cellMatches`: whether the cell holds `value` read as class
   * `t`.  Integral classes compare the value with the cell's number cast to
   * that class; `char` compares with the first character of the cell's text;
   * a date compares epoch milliseconds.  Where Java would throw (a cell of
   * another kind, a `null` or mistyped value, an empty string for `char`) the
   * comparison is a non-match.
   */
  function CellMatches(cell: Option<Cell>, t: JType, value: Value): (r: bool)
    ensures r ==> cell.Some?
    ensures r ==> t in {TString, TInt, TLong, TShort, TFloat, TDouble, TBoolean, TByte, TChar, TDate}
    ensures r && IsNumber(t) ==> value.VNum? && NumberOf(cell.value).Some?
    ensures r && t.TChar? ==> value.VChar? && StringOf(cell.value).Some? && |StringOf(cell.value).value| > 0 && StringOf(cell.value).value[0] == value.c
  {
    cell.Some? &&
    var c := cell.value;
    match t
    case TString => value.VStr? && StringOf(c) == Some(value.s)
    case TInt => value.VNum? && NumberOf(c).Some? && value.n == Int32(NumberOf(c).value)
    case TLong => value.VNum? && NumberOf(c).Some? && value.n == Int64(NumberOf(c).value)
    case TShort => value.VNum? && NumberOf(c).Some? && value.n == Int16(NumberOf(c).value)
    case TFloat => value.VNum? && NumberOf(c) == Some(value.n)
    case TDouble => value.VNum? && NumberOf(c) == Some(value.n)
    case TBoolean => value.VBool? && BoolOf(c) == Some(value.b)
    case TByte => value.VNum? && NumberOf(c).Some? && value.n == Int8(NumberOf(c).value)
    case TChar =>
      value.VChar? && StringOf(c).Some? && |StringOf(c).value| > 0 && StringOf(c).value[0] == value.c
    case TDate => value.VDate? && DateOf(c) == Some(Some(value.millis))
    case _ => false
  }

  /** An absent cell matches nothing, whatever the class and value. */
  lemma AbsentCellNeverMatches(t: JType, value: Value)
    ensures !CellMatches(None, t, value)
  {
  }

  /**
   * A string column matches exactly the cells whose text equals the value;
   * an `int` column matches exactly the cells whose number, truncated to
   * `int`, is the value.
   */
  lemma StringAndIntMatching(c: Cell, s: string, n: int)
    ensures CellMatches(Some(c), TString, VStr(s)) <==> (c == Str(s) || (c == Blank && s == ""))
    ensures CellMatches(Some(c), TInt, VNum(n)) <==> ((c.Num? && n == Int32(c.n)) || (c.Blank? && n == 0))
  {
  }

  /** A class the comparison does not know never matches. */
  lemma OtherClassesNeverMatch(cell: Option<Cell>, t: JType, value: Value)
    requires t.TCalendar? || t.TEnum? || t.TBytes? || t.TOther? || t.TBigInteger? || t.TBigDecimal? || t.TNumber?
    ensures !CellMatches(cell, t, value)
  {
  }

  /** One comparison a row search makes: column, class and value. */
  datatype Criterion = Criterion(column: int, jtype: JType, value: Value)

  /** Every criterion matches the row's cell at its column. */
  predicate RowMatches(row: Row, crit: seq<Criterion>)
  {
    forall k :: 0 <= k < |crit| ==> CellMatches(GetCell(row, crit[k].column), crit[k].jtype, crit[k].value)
  }

  /** Row `i` exists and matches. */
  predicate MatchAt(s: Sheet, i: nat, crit: seq<Criterion>)
    requires i < |s|
  {
    s[i].Some? && RowMatches(s[i].value, crit)
  }

  /** The lowest row index at which the sheet matches, or -1. */
  function FirstMatch(s: Sheet, crit: seq<Criterion>): (r: int)
    ensures -1 <= r < |s|
    ensures r >= 0 ==> MatchAt(s, r, crit)
    ensures forall j :: 0 <= j < |s| && (r < 0 || j < r) ==> !MatchAt(s, j, crit)
  {
    if |s| == 0 then -1
    else
      var r := FirstMatch(s[..|s| - 1], crit);
      assert forall j :: 0 <= j < |s| - 1 ==> (MatchAt(s, j, crit) <==> MatchAt(s[..|s| - 1], j, crit));
      if r >= 0 then r
      else if MatchAt(s, |s| - 1, crit) then |s| - 1
      else -1
  }
}
