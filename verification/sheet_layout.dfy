/** Column widths and row heights of the spreadsheet (apps/day04-sheets/app.js): the
    drag handlers and the double-click auto-fit. Pixel measurements come from the page;
    the model takes them as parameters (`measure`), in whole pixels. */
module SheetLayout {
  import opened Common
  import opened SheetAddress
  import opened SheetModel

  const MinColWidth := 36
  const MinRowHeight := 18
  const DefaultRowHeight := 24
  const FitLimit := 2000

  /* ---------- dragging ---------- */

  /** The width a column drag stores: the start width plus the pointer's travel, but
      never below the minimum. */
  function DragWidth(startW: int, delta: int): (w: int)
    ensures w >= MinColWidth
    ensures w == startW + delta || (w == MinColWidth && startW + delta < MinColWidth)
  {
    Max(MinColWidth, startW + delta)
  }

  /** `sheet.rowHeights[row] || 24`: the height a row drag starts from. */
  function DragStartHeight(heights: map<int, int>, row: int): (h: int)
    ensures row in heights && heights[row] != 0 ==> h == heights[row]
    ensures !(row in heights && heights[row] != 0) ==> h == DefaultRowHeight
  {
    if row in heights && heights[row] != 0 then heights[row] else DefaultRowHeight
  }

  /** The height a row drag stores. */
  function DragHeight(heights: map<int, int>, row: int, delta: int): (h: int)
    ensures h >= MinRowHeight
    ensures h == DragStartHeight(heights, row) + delta ||
            (h == MinRowHeight && DragStartHeight(heights, row) + delta < MinRowHeight)
  {
    Max(MinRowHeight, DragStartHeight(heights, row) + delta)
  }

  /** A drag that ends where it started keeps any stored size at or above the minimum. */
  lemma DragWithoutTravel(startW: int, heights: map<int, int>, row: int)
    ensures startW >= MinColWidth ==> DragWidth(startW, 0) == startW
    ensures row in heights && heights[row] >= MinRowHeight ==> DragHeight(heights, row, 0) == heights[row]
    ensures row !in heights ==> DragHeight(heights, row, 0) == DefaultRowHeight
  {
  }

  /* ---------- auto-fit ---------- */

  /** The running maximum of the measurements, starting from `init`: it is at least
      `init` and every measurement, and is one of them or `init`. */
  function MaxFrom(init: int, xs: seq<int>): (m: int)
    ensures m >= init && forall i :: 0 <= i < |xs| ==> m >= xs[i]
    ensures m == init || exists i :: 0 <= i < |xs| && m == xs[i]
    decreases |xs|
  {
    if |xs| == 0 then init
    else
      var m := MaxFrom(Max(init, xs[0]), xs[1..]);
      assert forall i :: 1 <= i < |xs| ==> xs[i] == xs[1..][i - 1];
      assert m != Max(init, xs[0]) ==> exists i :: 1 <= i < |xs| && m == xs[i] by {
        if m != Max(init, xs[0]) {
          var j :| 0 <= j < |xs[1..]| && m == xs[1..][j];
          assert m == xs[j + 1];
        }
      }
      m
  }

  /** `Math.min(Math.max(lo, x), 2000)`. */
  function Fit(lo: int, x: int): (r: int)
    requires lo <= FitLimit
    ensures lo <= r <= FitLimit
    ensures lo <= x <= FitLimit ==> r == x
  {
    Min(Max(lo, x), FitLimit)
  }

  /** Fitting is idempotent: a fitted size fits unchanged. */
  lemma FitIdempotent(lo: int, x: int)
    requires lo <= FitLimit
    ensures Fit(lo, Fit(lo, x)) == Fit(lo, x)
  {
  }

  /** The text the grid shows in a cell: `c.expr || c.value || ''`. */
  function ShownText(data: map<string, Cell>, id: string): string {
    ToText(Shown(Lookup(data, id)))
  }

  /** The widths autoFitColumn measures for rows r..hi of a column: each non-empty text
      plus 18 pixels of padding; empty cells are skipped. */
  function TextWidths(data: map<string, Cell>, col: nat, r: int, hi: int, measure: string -> int): seq<int>
    requires col < 26
    decreases hi + 1 - r
  {
    if r > hi || r < 1 then []
    else
      var rest := TextWidths(data, col, r + 1, hi, measure);
      var t := ShownText(data, CellId(col, r));
      if t == "" then rest else [measure(t) + 18] + rest
  }

  /** Every non-empty text of rows r..hi has its width among the measured ones. */
  lemma {:induction false} TextWidthsCover(data: map<string, Cell>, col: nat, r: int, hi: int, measure: string -> int, row: nat)
    requires col < 26 && 1 <= r <= row <= hi
    requires ShownText(data, CellId(col, row)) != ""
    ensures measure(ShownText(data, CellId(col, row))) + 18 in TextWidths(data, col, r, hi, measure)
    decreases hi + 1 - r
  {
    if row > r {
      TextWidthsCover(data, col, r + 1, hi, measure, row);
    }
  }

  /** Conversely, every measured width belongs to a non-empty text of rows r..hi. */
  lemma {:induction false} TextWidthsFrom(data: map<string, Cell>, col: nat, r: int, hi: int, measure: string -> int, x: int)
    requires col < 26
    requires x in TextWidths(data, col, r, hi, measure)
    ensures exists row: nat :: r <= row <= hi && ShownText(data, CellId(col, row)) != "" &&
              x == measure(ShownText(data, CellId(col, row))) + 18
    decreases hi + 1 - r
  {
    if r > hi || r < 1 {
    } else {
      var t := ShownText(data, CellId(col, r));
      if t != "" && x == measure(t) + 18 {
        var row: nat := r;
        assert ShownText(data, CellId(col, row)) != "";
      } else {
        TextWidthsFrom(data, col, r + 1, hi, measure, x);
      }
    }
  }

  /** The width autoFitColumn computes: the widest of the column's letter (plus 22 pixels)
      and the non-empty texts of its first 200 rows (plus 18), at least 36 and at most
      2000. The lower bounds and the last clause together make it exactly the clamped
      maximum: it is the minimum, or one of the candidates (capped at 2000). */
  function ColumnFitWidth(sheet: Sheet, col: nat, measure: string -> int): (w: int)
    requires col < 26
    ensures MinColWidth <= w <= FitLimit
    ensures w >= Min(FitLimit, measure([ColName(col)]) + 22)
    ensures forall row: nat :: 1 <= row <= Min(sheet.rows, 200) && ShownText(sheet.data, CellId(col, row)) != "" ==>
              w >= Min(FitLimit, measure(ShownText(sheet.data, CellId(col, row))) + 18)
    ensures w == MinColWidth || w == Min(FitLimit, measure([ColName(col)]) + 22) ||
            exists row: nat :: 1 <= row <= Min(sheet.rows, 200) && ShownText(sheet.data, CellId(col, row)) != "" &&
              w == Min(FitLimit, measure(ShownText(sheet.data, CellId(col, row))) + 18)
  {
    var ws := TextWidths(sheet.data, col, 1, Min(sheet.rows, 200), measure);
    var init := Max(MinColWidth, measure([ColName(col)]) + 22);
    var widest := MaxFrom(init, ws);
    FitCovers(sheet, col, measure, ws, widest);
    assert widest != init ==>
             exists row: nat :: 1 <= row <= Min(sheet.rows, 200) && ShownText(sheet.data, CellId(col, row)) != "" &&
               widest == measure(ShownText(sheet.data, CellId(col, row))) + 18 by {
      if widest != init {
        var i :| 0 <= i < |ws| && widest == ws[i];
        TextWidthsFrom(sheet.data, col, 1, Min(sheet.rows, 200), measure, ws[i]);
      }
    }
    Fit(MinColWidth, widest)
  }

  /** The fitted width is the least width in 36..2000 that covers the letter and every
      sampled text: any other such width is at least as wide. */
  lemma ColumnFitIsLeast(sheet: Sheet, col: nat, measure: string -> int, v: int)
    requires col < 26
    requires MinColWidth <= v && v >= Min(FitLimit, measure([ColName(col)]) + 22)
    requires forall row: nat :: 1 <= row <= Min(sheet.rows, 200) && ShownText(sheet.data, CellId(col, row)) != "" ==>
               v >= Min(FitLimit, measure(ShownText(sheet.data, CellId(col, row))) + 18)
    ensures ColumnFitWidth(sheet, col, measure) <= v
  {
  }

  lemma FitCovers(sheet: Sheet, col: nat, measure: string -> int, ws: seq<int>, widest: int)
    requires col < 26
    requires ws == TextWidths(sheet.data, col, 1, Min(sheet.rows, 200), measure)
    requires widest == MaxFrom(Max(MinColWidth, measure([ColName(col)]) + 22), ws)
    ensures forall row: nat :: 1 <= row <= Min(sheet.rows, 200) && ShownText(sheet.data, CellId(col, row)) != "" ==>
              widest >= measure(ShownText(sheet.data, CellId(col, row))) + 18
  {
    forall row: nat | 1 <= row <= Min(sheet.rows, 200) && ShownText(sheet.data, CellId(col, row)) != ""
      ensures widest >= measure(ShownText(sheet.data, CellId(col, row))) + 18
    {
      TextWidthsCover(sheet.data, col, 1, Min(sheet.rows, 200), measure, row);
    }
  }

  /** The width autoFitRow lays a column's text out in: the stored width, or 120 when
      there is none or it is 0, less 12 pixels of padding. */
  function LayoutWidth(widths: map<int, int>, col: int): int {
    (if col in widths && widths[col] != 0 then widths[col] else 120) - 12
  }

  /** The heights autoFitRow measures for columns c..cols-1 of a row: each cell's text,
      empty or not, laid out in its column's width, plus 8 pixels. */
  function TextHeights(sheet: Sheet, row: nat, c: nat, measure: (string, int) -> int): (hs: seq<int>)
    requires sheet.cols <= 26
    ensures |hs| == if c < sheet.cols then sheet.cols - c else 0
    ensures forall i :: 0 <= i < |hs| ==>
              hs[i] == measure(ShownText(sheet.data, CellId(c + i, row)), LayoutWidth(sheet.colWidths, c + i)) + 8
    decreases sheet.cols - c
  {
    if c >= sheet.cols then []
    else
      [measure(ShownText(sheet.data, CellId(c, row)), LayoutWidth(sheet.colWidths, c)) + 8] +
      TextHeights(sheet, row, c + 1, measure)
  }

  /** The height autoFitRow computes: the tallest cell of the row over the sheet's
      columns, at least 18 and at most 2000. With the lower bounds, the last clause makes
      it exactly the clamped maximum: it is 18 or one column's height (capped at 2000). */
  function RowFitHeight(sheet: Sheet, row: nat, measure: (string, int) -> int): (h: int)
    requires sheet.cols <= 26
    ensures MinRowHeight <= h <= FitLimit
    ensures forall c: nat :: c < sheet.cols ==>
              h >= Min(FitLimit, measure(ShownText(sheet.data, CellId(c, row)), LayoutWidth(sheet.colWidths, c)) + 8)
    ensures h == MinRowHeight ||
            exists c: nat :: c < sheet.cols &&
              h == Min(FitLimit, measure(ShownText(sheet.data, CellId(c, row)), LayoutWidth(sheet.colWidths, c)) + 8)
  {
    var hs := TextHeights(sheet, row, 0, measure);
    var tallest := MaxFrom(MinRowHeight, hs);
    assert tallest != MinRowHeight ==>
             exists c: nat :: c < sheet.cols &&
               tallest == measure(ShownText(sheet.data, CellId(c, row)), LayoutWidth(sheet.colWidths, c)) + 8 by {
      if tallest != MinRowHeight {
        var i :| 0 <= i < |hs| && tallest == hs[i];
        var c: nat := i;
        assert 0 + c == c;
        assert tallest == measure(ShownText(sheet.data, CellId(c, row)), LayoutWidth(sheet.colWidths, c)) + 8;
      }
    }
    assert forall c: nat :: c < sheet.cols ==>
              tallest >= measure(ShownText(sheet.data, CellId(c, row)), LayoutWidth(sheet.colWidths, c)) + 8 by {
      forall c: nat | c < sheet.cols
        ensures tallest >= measure(ShownText(sheet.data, CellId(c, row)), LayoutWidth(sheet.colWidths, c)) + 8
      {
        assert tallest >= hs[c];
        assert 0 + c == c;
      }
    }
    Fit(MinRowHeight, tallest)
  }

  /** The fitted height is the least height in 18..2000 that covers every column of the
      row: any other such height is at least as tall. */
  lemma RowFitIsLeast(sheet: Sheet, row: nat, measure: (string, int) -> int, v: int)
    requires sheet.cols <= 26 && MinRowHeight <= v
    requires forall c: nat :: c < sheet.cols ==>
               v >= Min(FitLimit, measure(ShownText(sheet.data, CellId(c, row)), LayoutWidth(sheet.colWidths, c)) + 8)
    ensures RowFitHeight(sheet, row, measure) <= v
  {
  }

  /** The double-click handlers store the fitted size and change nothing else. */
  function AutoFitColumn(sheet: Sheet, col: nat, measure: string -> int): (r: Sheet)
    requires col < 26
    ensures r == sheet.(colWidths := r.colWidths)
    ensures r.colWidths.Keys == sheet.colWidths.Keys + {col}
    ensures forall k :: k in sheet.colWidths && k != col ==> r.colWidths[k] == sheet.colWidths[k]
    ensures r.colWidths[col] == ColumnFitWidth(sheet, col, measure)
  {
    sheet.(colWidths := sheet.colWidths[col := ColumnFitWidth(sheet, col, measure)])
  }

  function AutoFitRow(sheet: Sheet, row: nat, measure: (string, int) -> int): (r: Sheet)
    requires sheet.cols <= 26
    ensures r == sheet.(rowHeights := r.rowHeights)
    ensures r.rowHeights.Keys == sheet.rowHeights.Keys + {row}
    ensures forall k :: k in sheet.rowHeights && k != row ==> r.rowHeights[k] == sheet.rowHeights[k]
    ensures r.rowHeights[row] == RowFitHeight(sheet, row, measure)
  {
    sheet.(rowHeights := sheet.rowHeights[row := RowFitHeight(sheet, row, measure)])
  }
}
