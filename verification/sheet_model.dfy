/** The spreadsheet's data (apps/day04-sheets/app.js): cell values, styles and cells,
    sheets as `createSheet` builds them, and the workbook with its active sheet index.
    Numbers are modelled as integers; JavaScript's doubles, NaN and rounding are not. */
module SheetModel {
  import opened Common
  import opened JsNumbers

  /** What a cell's `value` can hold: the text typed into it, or whatever the formula
      evaluator gave back. `Undefined` is a cell created by a style action, which has no
      `value` key at all. */
  datatype Value = Text(s: string) | Number(n: int) | Bool(b: bool) | Null | Undefined

  /** String(v). */
  function ToText(v: Value): string
  {
    match v
    case Text(s) => s
    case Number(n) => IntToString(n)
    case Bool(b) => if b then "true" else "false"
    case Null => "null"
    case Undefined => "undefined"
  }

  /** JavaScript truthiness of a value. */
  predicate Truthy(v: Value) {
    match v
    case Text(s) => s != ""
    case Number(n) => n != 0
    case Bool(b) => b
    case _ => false
  }

  /** The style record of a cell; an absent key is `None`. Border styles are left out:
      the border menu writes them to the page elements only. */
  datatype Style = Style(
    bold: Option<bool>,
    italic: Option<bool>,
    underline: Option<bool>,
    wrap: Option<bool>,
    align: Option<string>,
    fill: Option<string>)

  const EmptyStyle := Style(None, None, None, None, None, None)

  /** A cell record: `{ value, expr, style }`. `expr` is the formula text without its `=`. */
  datatype Cell = Cell(value: Value, expr: Option<string>, style: Option<Style>)

  /** The `{}` a style action creates for a missing cell. */
  const EmptyCell := Cell(Undefined, None, None)

  /** A table inserted over a selection: its bounds and colours. */
  datatype Table = Table(
    id: string,
    startC: JsNum, startR: int, endC: JsNum, endR: int,
    headerColor: string, bodyColor: string, zebra: bool)

  /** A sheet. `data` is keyed by cell id; `filters` maps a column index to the set of
      cell texts shown in that column. */
  datatype Sheet = Sheet(
    id: string,
    name: string,
    cols: int,
    rows: int,
    data: map<string, Cell>,
    colWidths: map<int, int>,
    rowHeights: map<int, int>,
    tables: seq<Table>,
    filters: map<int, set<string>>,
    rowFills: map<int, string>)

  /** createSheet(name): 10 columns, 40 rows, nothing else. The id comes from the caller. */
  function CreateSheet(id: string, name: string): (s: Sheet)
    ensures s.id == id && s.name == name && s.cols == 10 && s.rows == 40
    ensures s.data == map[] && s.tables == [] && s.filters == map[]
    ensures SizesInRange(s)
  {
    Sheet(id, name, 10, 40, map[], map[], map[], [], map[], map[])
  }

  datatype Workbook = Workbook(name: string, sheets: seq<Sheet>, active: int)

  /** The workbook has a sheet and its active index points at one. */
  predicate ValidWorkbook(w: Workbook) {
    |w.sheets| >= 1 && 0 <= w.active < |w.sheets|
  }

  /** The grid sizes the column and row count inputs accept. */
  predicate SizesInRange(s: Sheet) {
    1 <= s.cols <= 26 && 1 <= s.rows <= 1000
  }

  /** createWorkbook: one sheet called Sheet1, active. */
  function CreateWorkbook(sheetId: string): (w: Workbook)
    ensures ValidWorkbook(w) && |w.sheets| == 1 && w.active == 0
    ensures w.sheets[0] == CreateSheet(sheetId, "Sheet1")
  {
    Workbook("Workbook", [CreateSheet(sheetId, "Sheet1")], 0)
  }

  function ActiveSheet(w: Workbook): Sheet
    requires ValidWorkbook(w)
  {
    w.sheets[w.active]
  }

  /** The workbook with the active sheet's cells replaced. */
  function WithActiveData(w: Workbook, data: map<string, Cell>): (r: Workbook)
    requires ValidWorkbook(w)
    ensures ValidWorkbook(r) && r.active == w.active && |r.sheets| == |w.sheets|
    ensures ActiveSheet(r) == ActiveSheet(w).(data := data)
    ensures forall i :: 0 <= i < |w.sheets| && i != w.active ==> r.sheets[i] == w.sheets[i]
  {
    w.(sheets := w.sheets[w.active := w.sheets[w.active].(data := data)])
  }

  function Lookup(data: map<string, Cell>, id: string): Option<Cell> {
    if id in data then Some(data[id]) else None
  }

  /** `cell ? (cell.expr || cell.value || '') : ''`: what the grid shows for a cell. */
  function Shown(cell: Option<Cell>): Value {
    match cell
    case None => Text("")
    case Some(c) =>
      if c.expr.Some? && c.expr.value != "" then Text(c.expr.value)
      else if Truthy(c.value) then c.value
      else Text("")
  }
}
