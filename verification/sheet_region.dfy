/** Region logic over a selection (apps/day04-sheets/app.js): the bounding rectangle of
    insertFormattedTable with its header-row styling, and the edge classification of
    applyBorderType with getMinCol, getMaxCol, getMinRow and getMaxRow.

    Both pieces of source take parseCell's column LETTER as if it were a number. The model
    decodes the letter (ColumnIndex); the `AsWritten` members below follow the letter
    through Math.min and `===` instead. */
module SheetRegion {
  import opened Common
  import opened SheetAddress
  import opened SheetModel
  import opened JsNumbers

  /** Inclusive bounds: columns minC..maxC, rows minR..maxR. */
  datatype Box = Box(minC: nat, maxC: nat, minR: nat, maxR: nat)

  predicate InBox(c: nat, r: nat, b: Box) {
    b.minC <= c <= b.maxC && b.minR <= r <= b.maxR
  }

  /** Every selected id is a cell address with a one-letter column: the ids of a selection
      come from the grid's own cells. */
  predicate Decodes(cells: seq<string>) {
    forall i :: 0 <= i < |cells| ==> Coord(cells[i]).Some?
  }

  /** The smallest and largest column and row over the selected cells. */
  function Bounds(cells: seq<string>): (b: Box)
    requires |cells| > 0 && Decodes(cells)
    ensures b.minC <= b.maxC < 26 && b.minR <= b.maxR
    ensures forall i :: 0 <= i < |cells| ==> InBox(Coord(cells[i]).value.0, Coord(cells[i]).value.1, b)
    decreases |cells|
  {
    var p := Coord(cells[0]).value;
    if |cells| == 1 then Box(p.0, p.0, p.1, p.1)
    else
      var rest := Bounds(cells[1..]);
      assert forall i :: 1 <= i < |cells| ==> cells[i] == cells[1..][i - 1];
      Box(Min(p.0, rest.minC), Max(p.0, rest.maxC), Min(p.1, rest.minR), Max(p.1, rest.maxR))
  }

  lemma DecodesTail(cells: seq<string>)
    requires |cells| > 0 && Decodes(cells)
    ensures Decodes(cells[1..])
  {
    var tail := cells[1..];
    forall i | 0 <= i < |tail| ensures Coord(tail[i]).Some? { assert tail[i] == cells[i + 1]; }
  }

  /** Each bound is reached by some selected cell: the box is the smallest that holds the
      selection. */
  lemma BoundsAttained(cells: seq<string>)
    requires |cells| > 0 && Decodes(cells)
    ensures exists i :: 0 <= i < |cells| && Coord(cells[i]).value.0 == Bounds(cells).minC
    ensures exists i :: 0 <= i < |cells| && Coord(cells[i]).value.0 == Bounds(cells).maxC
    ensures exists i :: 0 <= i < |cells| && Coord(cells[i]).value.1 == Bounds(cells).minR
    ensures exists i :: 0 <= i < |cells| && Coord(cells[i]).value.1 == Bounds(cells).maxR
  {
    ColumnBoundsAttained(cells);
    RowBoundsAttained(cells);
  }

  lemma {:induction false} ColumnBoundsAttained(cells: seq<string>)
    requires |cells| > 0 && Decodes(cells)
    ensures exists i :: 0 <= i < |cells| && Coord(cells[i]).value.0 == Bounds(cells).minC
    ensures exists i :: 0 <= i < |cells| && Coord(cells[i]).value.0 == Bounds(cells).maxC
    decreases |cells|
  {
    if |cells| > 1 {
      var tail := cells[1..];
      DecodesTail(cells);
      ColumnBoundsAttained(tail);
      var rest := Bounds(tail);
      var i0 :| 0 <= i0 < |tail| && Coord(tail[i0]).value.0 == rest.minC;
      var i1 :| 0 <= i1 < |tail| && Coord(tail[i1]).value.0 == rest.maxC;
      assert tail[i0] == cells[i0 + 1] && tail[i1] == cells[i1 + 1];
    } else {
      assert Coord(cells[0]).value.0 == Bounds(cells).minC;
    }
  }

  lemma {:induction false} RowBoundsAttained(cells: seq<string>)
    requires |cells| > 0 && Decodes(cells)
    ensures exists i :: 0 <= i < |cells| && Coord(cells[i]).value.1 == Bounds(cells).minR
    ensures exists i :: 0 <= i < |cells| && Coord(cells[i]).value.1 == Bounds(cells).maxR
    decreases |cells|
  {
    if |cells| > 1 {
      var tail := cells[1..];
      DecodesTail(cells);
      RowBoundsAttained(tail);
      var rest := Bounds(tail);
      var i2 :| 0 <= i2 < |tail| && Coord(tail[i2]).value.1 == rest.minR;
      var i3 :| 0 <= i3 < |tail| && Coord(tail[i3]).value.1 == rest.maxR;
      assert tail[i2] == cells[i2 + 1] && tail[i3] == cells[i3 + 1];
    } else {
      assert Coord(cells[0]).value.1 == Bounds(cells).minR;
    }
  }

  /* ---------- insertFormattedTable ---------- */

  /** The ids of the rectangle's top row. */
  function HeaderIds(b: Box): set<string>
    requires b.maxC < 26
  {
    set c: nat | b.minC <= c <= b.maxC :: CellId(c, b.minR)
  }

  /** A header cell: created when missing, given the header fill and bold. */
  function Headed(cell: Option<Cell>, color: string): (r: Cell)
    ensures r.style.Some? && r.style.value.fill == Some(color) && r.style.value.bold == Some(true)
    ensures cell.Some? ==> r.value == cell.value.value && r.expr == cell.value.expr
    ensures cell.None? ==> r.value == Undefined && r.expr.None?
    ensures var prior := if cell.Some? && cell.value.style.Some? then cell.value.style.value else EmptyStyle;
            r.style.value.italic == prior.italic && r.style.value.underline == prior.underline &&
            r.style.value.wrap == prior.wrap && r.style.value.align == prior.align
  {
    var base := cell.GetOr(EmptyCell);
    var st := base.style.GetOr(EmptyStyle);
    base.(style := Some(st.(fill := Some(color), bold := Some(true))))
  }

  /** The cells after the header loop of insertFormattedTable. */
  function StyleHeader(data: map<string, Cell>, b: Box, color: string): (r: map<string, Cell>)
    requires b.maxC < 26
    ensures forall id :: id in HeaderIds(b) ==>
              id in r && r[id].style.Some? && r[id].style.value.fill == Some(color) && r[id].style.value.bold == Some(true)
    ensures forall id :: id in HeaderIds(b) && id in data ==> r[id].value == data[id].value && r[id].expr == data[id].expr
    ensures forall id :: id !in HeaderIds(b) ==> Lookup(r, id) == Lookup(data, id)
  {
    map id | id in data.Keys + HeaderIds(b) ::
      if id in HeaderIds(b) then Headed(Lookup(data, id), color) else data[id]
  }

  /** insertFormattedTable as written: rejected on an empty selection; otherwise a zebra
      table is appended whose column bounds are NaN (Math.min and Math.max of column
      letters) and whose row bounds are the selection's, and the header loop styles
      nothing. */
  function InsertTable(sheet: Sheet, cells: seq<string>, header: string, body: string, tableId: string): (r: Option<Sheet>)
    requires Decodes(cells)
    ensures r.None? <==> |cells| == 0
    ensures r.Some? ==>
              var b := Bounds(cells);
              r.value == sheet.(tables := sheet.tables + [Table(tableId, NaN, b.minR, NaN, b.maxR, header, body, true)])
  {
    if |cells| == 0 then None
    else
      var b := Bounds(cells);
      var startC := JsMinAll(LetterNumbers(cells));
      var endC := JsMaxAll(LetterNumbers(cells));
      TableHeaderAsWrittenStylesNothing(sheet.data, cells, header);
      Some(sheet.(tables := sheet.tables + [Table(tableId, startC, b.minR, endC, b.maxR, header, body, true)],
                  data := TableHeaderAsWritten(sheet.data, cells, header)))
  }

  /** insertFormattedTable as evidently intended, with the column letters decoded: the
      table spans the selection's bounding rectangle and the rectangle's top row is
      styled. */
  function InsertTableIntended(sheet: Sheet, cells: seq<string>, header: string, body: string, tableId: string): (r: Option<Sheet>)
    requires Decodes(cells)
    ensures r.None? <==> |cells| == 0
    ensures r.Some? ==>
              var b := Bounds(cells);
              r.value == sheet.(tables := sheet.tables + [Table(tableId, Finite(b.minC), b.minR, Finite(b.maxC), b.maxR, header, body, true)],
                                data := r.value.data)
  {
    if |cells| == 0 then None
    else
      var b := Bounds(cells);
      Some(sheet.(tables := sheet.tables + [Table(tableId, Finite(b.minC), b.minR, Finite(b.maxC), b.maxR, header, body, true)],
                  data := StyleHeader(sheet.data, b, header)))
  }

  /** The two versions append a table with the same rows and colours; only the
      intended one has column bounds and styles the top row. */
  lemma InsertTableVersions(sheet: Sheet, cells: seq<string>, header: string, body: string, tableId: string)
    requires Decodes(cells) && |cells| > 0
    ensures var w := InsertTable(sheet, cells, header, body, tableId).value;
            var i := InsertTableIntended(sheet, cells, header, body, tableId).value;
            |w.tables| == |i.tables| &&
            w.tables[..|sheet.tables|] == i.tables[..|sheet.tables|] &&
            w.tables[|sheet.tables|] == i.tables[|sheet.tables|].(startC := NaN, endC := NaN) &&
            w.data == sheet.data &&
            CellId(Bounds(cells).minC, Bounds(cells).minR) in i.data
  {
    InsertTableStylesHeaderRow(sheet, cells, header, body, tableId);
  }

  /** Only the top row of the rectangle is styled: each of its cells exists afterwards with
      the header fill and bold and its old value and formula; every other cell is as it
      was. */
  lemma InsertTableStylesHeaderRow(sheet: Sheet, cells: seq<string>, header: string, body: string, tableId: string)
    requires Decodes(cells) && |cells| > 0
    ensures var b := Bounds(cells);
            var d := InsertTableIntended(sheet, cells, header, body, tableId).value.data;
            (forall c: nat :: b.minC <= c <= b.maxC ==>
               CellId(c, b.minR) in d &&
               d[CellId(c, b.minR)].style.Some? &&
               d[CellId(c, b.minR)].style.value.fill == Some(header) &&
               d[CellId(c, b.minR)].style.value.bold == Some(true) &&
               (CellId(c, b.minR) in sheet.data ==>
                  d[CellId(c, b.minR)].value == sheet.data[CellId(c, b.minR)].value &&
                  d[CellId(c, b.minR)].expr == sheet.data[CellId(c, b.minR)].expr)) &&
            (forall id :: id !in HeaderIds(b) ==> Lookup(d, id) == Lookup(sheet.data, id))
  {
    var b := Bounds(cells);
    forall c: nat | b.minC <= c <= b.maxC
      ensures CellId(c, b.minR) in HeaderIds(b)
    {
    }
  }

  /** The header row is the rectangle's top row, cell for cell. */
  lemma HeaderIdsAreTopRow(b: Box, c: nat, r: nat)
    requires b.maxC < 26 && c < 26
    ensures CellId(c, r) in HeaderIds(b) <==> r == b.minR && b.minC <= c <= b.maxC
  {
    if CellId(c, r) in HeaderIds(b) {
      var c2: nat :| b.minC <= c2 <= b.maxC && CellId(c2, b.minR) == CellId(c, r);
      CellIdInjective(c2, b.minR, c, r);
    }
  }

  /** The header loop as written: its bounds are Math.min and Math.max of column letters,
      which are NaN, so `c <= endC` fails at once and no cell is styled. */
  function TableHeaderAsWritten(data: map<string, Cell>, cells: seq<string>, color: string): (r: map<string, Cell>)
    requires |cells| > 0 && Decodes(cells)
    ensures forall id :: id !in HeaderIds(Bounds(cells)) ==> Lookup(r, id) == Lookup(data, id)
  {
    var startC := JsMinAll(LetterNumbers(cells));
    var endC := JsMaxAll(LetterNumbers(cells));
    if JsLe(startC, endC) then StyleHeader(data, Bounds(cells), color) else data
  }

  /** The column letters of the selected cells, converted to numbers. */
  function LetterNumbers(cells: seq<string>): (xs: seq<JsNum>)
    requires Decodes(cells)
    ensures |xs| == |cells|
    ensures forall i :: 0 <= i < |cells| ==> xs[i].NaN?
  {
    seq(|cells|, i requires 0 <= i < |cells| =>
      var letters := ParseCell(cells[i]).value.0;
      assert CellSplit(cells[i], |letters|);
      assert forall j :: 0 <= j < |letters| ==> letters[j] == cells[i][..|letters|][j];
      LettersToNumber(letters))
  }

  /** As written, inserting a table over any selection styles no header cell. */
  lemma TableHeaderAsWrittenStylesNothing(data: map<string, Cell>, cells: seq<string>, color: string)
    requires |cells| > 0 && Decodes(cells)
    ensures TableHeaderAsWritten(data, cells, color) == data
  {
    assert LetterNumbers(cells)[0].NaN?;
  }

  /** Concretely: a table over the single cell A1 leaves A1 unstyled as written, while the
      rectangle's top row is A1. */
  lemma TableOverA1(data: map<string, Cell>)
    ensures CellId(0, 1) in HeaderIds(Bounds([CellId(0, 1)]))
    ensures TableHeaderAsWritten(data, [CellId(0, 1)], "#000") == data
  {
    CoordOfCellId(0, 1);
    TableHeaderAsWrittenStylesNothing(data, [CellId(0, 1)], "#000");
    HeaderIdsAreTopRow(Bounds([CellId(0, 1)]), 0, 1);
  }

  /* ---------- applyBorderType ---------- */

  datatype BorderType = NoBorder | AllBorders | Outside | Inside | Side(side: string)

  /** The cell is on the edge of the selection's bounding rectangle. */
  predicate OnEdge(c: nat, r: nat, b: Box) {
    c == b.minC || c == b.maxC || r == b.minR || r == b.maxR
  }

  /** Whether a cell's whole border is drawn: every cell for `all`, the edge cells for
      `outside`, the others for `inside`; `none` and the one-sided types draw no whole
      border. */
  function FullBorder(t: BorderType, c: nat, r: nat, b: Box): (full: bool)
    ensures t.NoBorder? || t.Side? ==> !full
    ensures t == AllBorders ==> full
    ensures InBox(c, r, b) && t == Inside ==> (full <==> b.minC < c < b.maxC && b.minR < r < b.maxR)
    ensures InBox(c, r, b) && t == Outside ==> (full <==> !(b.minC < c < b.maxC && b.minR < r < b.maxR))
  {
    match t
    case AllBorders => true
    case Outside => OnEdge(c, r, b)
    case Inside => !OnEdge(c, r, b)
    case _ => false
  }

  /** `outside` and `inside` split the selection: each cell gets exactly one of them, and
      `inside` picks exactly the cells strictly within the rectangle. */
  lemma OutsideInsideSplit(c: nat, r: nat, b: Box)
    requires InBox(c, r, b)
    ensures FullBorder(Outside, c, r, b) != FullBorder(Inside, c, r, b)
    ensures FullBorder(Inside, c, r, b) <==> b.minC < c < b.maxC && b.minR < r < b.maxR
  {
  }

  /** The edge test as written: `c === getMinCol()` compares a letter with NaN and is
      always false, so only the row decides. */
  function FullBorderAsWritten(t: BorderType, c: nat, r: nat, b: Box): (full: bool)
    ensures (r == b.minR || r == b.maxR) ==> full == FullBorder(t, c, r, b)
    ensures t == Outside && b.minR < r < b.maxR ==> !full
    ensures t.NoBorder? || t.Side? ==> !full
    ensures t == AllBorders ==> full
  {
    var onEdge := r == b.minR || r == b.maxR;
    match t
    case AllBorders => true
    case Outside => onEdge
    case Inside => !onEdge
    case _ => false
  }

  /** Over the 3 by 3 selection A1:C3, the left-edge cell A2 gets the `outside` border
      only as intended, and the `inside` one only as written. */
  lemma BorderAsWrittenIgnoresColumns()
    ensures FullBorder(Outside, 0, 2, Box(0, 2, 1, 3))
    ensures !FullBorderAsWritten(Outside, 0, 2, Box(0, 2, 1, 3))
    ensures FullBorderAsWritten(Inside, 0, 2, Box(0, 2, 1, 3))
  {
  }

  /** The two agree on every cell of the top and bottom rows. */
  lemma BorderAsWrittenAgreesOnEdgeRows(t: BorderType, c: nat, r: nat, b: Box)
    requires r == b.minR || r == b.maxR
    ensures FullBorder(t, c, r, b) == FullBorderAsWritten(t, c, r, b)
  {
  }

  /** A selection that holds one cell, however often it is listed, bounds a one-cell box. */
  lemma {:induction false} OneCellBounds(cells: seq<string>)
    requires |cells| > 0 && Decodes(cells)
    requires forall i :: 0 <= i < |cells| ==> cells[i] == cells[0]
    ensures Bounds(cells) == Box(Coord(cells[0]).value.0, Coord(cells[0]).value.0,
                                 Coord(cells[0]).value.1, Coord(cells[0]).value.1)
    decreases |cells|
  {
    if |cells| > 1 {
      DecodesTail(cells);
      OneCellBounds(cells[1..]);
      assert cells[1..][0] == cells[0];
    }
  }

  /** On a selection of one cell, the only kind the page's mouse handlers form as written
      (SheetSelection.PageClickKeepsFocusedOnly), the written and the intended edge tests
      agree for every border type: the discrepancy of FullBorderAsWritten stays latent. */
  lemma OneCellBordersAgree(cells: seq<string>, t: BorderType)
    requires |cells| > 0 && Decodes(cells)
    requires forall i :: 0 <= i < |cells| ==> cells[i] == cells[0]
    ensures Bounds(cells).minR == Bounds(cells).maxR
    ensures forall c: nat, r: nat :: InBox(c, r, Bounds(cells)) ==>
              FullBorderAsWritten(t, c, r, Bounds(cells)) == FullBorder(t, c, r, Bounds(cells))
  {
    OneCellBounds(cells);
  }
}
