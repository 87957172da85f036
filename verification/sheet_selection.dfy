/** The selection state machine of the spreadsheet (the grid's mousedown handler,
    apps/day04-sheets/app.js): a plain click selects one cell, ctrl or meta toggles one,
    and shift selects the rectangle between the anchor and the clicked cell. The selected
    ids are a JavaScript Set, modelled as a sequence in insertion order. */
module SheetSelection {
  import opened Common
  import opened Seqs
  import opened SheetAddress
  import opened JsNumbers

  datatype Selection = Selection(cells: seq<string>, anchor: Option<string>)

  /** The selection together with the focused cell. */
  datatype Pointer = Pointer(sel: Selection, focused: Option<string>)

  /** A mousedown on the cell in column `col`, row `row`; `ctrl` stands for ctrlKey or
      metaKey. */
  datatype Click = Click(col: nat, row: nat, shift: bool, ctrl: bool)

  /* ---------- the rectangle, rows outside, columns inside ---------- */

  /** The coordinates of row `r` from column `c` to column `hi`. */
  function RowCells(r: nat, c: nat, hi: nat): seq<(nat, nat)>
    decreases hi + 1 - c
  {
    if c > hi then [] else [(c, r)] + RowCells(r, c + 1, hi)
  }

  /** The coordinates of rows `r` to `rhi`, each from column `clo` to column `chi`. */
  function BoxCells(r: nat, rhi: nat, clo: nat, chi: nat): seq<(nat, nat)>
    decreases rhi + 1 - r
  {
    if r > rhi then [] else RowCells(r, clo, chi) + BoxCells(r + 1, rhi, clo, chi)
  }

  predicate InBox(p: (nat, nat), rlo: nat, rhi: nat, clo: nat, chi: nat) {
    rlo <= p.1 <= rhi && clo <= p.0 <= chi
  }

  lemma {:induction false} RowCellsSpec(r: nat, c: nat, hi: nat)
    ensures forall p :: p in RowCells(r, c, hi) <==> InBox(p, r, r, c, hi)
    ensures Distinct(RowCells(r, c, hi))
    decreases hi + 1 - c
  {
    if c <= hi {
      RowCellsSpec(r, c + 1, hi);
      DistinctConcat([(c, r)], RowCells(r, c + 1, hi));
    }
  }

  lemma {:induction false} BoxCellsSpec(r: nat, rhi: nat, clo: nat, chi: nat)
    ensures forall p :: p in BoxCells(r, rhi, clo, chi) <==> InBox(p, r, rhi, clo, chi)
    ensures Distinct(BoxCells(r, rhi, clo, chi))
    decreases rhi + 1 - r
  {
    if r <= rhi {
      RowCellsSpec(r, clo, chi);
      BoxCellsSpec(r + 1, rhi, clo, chi);
      DistinctConcat(RowCells(r, clo, chi), BoxCells(r + 1, rhi, clo, chi));
    }
  }

  /** The ids of a list of cells of the first 26 columns. */
  function IdsOf(ps: seq<(nat, nat)>): (ids: seq<string>)
    requires forall i :: 0 <= i < |ps| ==> ps[i].0 < 26
    ensures |ids| == |ps|
    ensures forall i :: 0 <= i < |ps| ==> ids[i] == CellId(ps[i].0, ps[i].1)
  {
    seq(|ps|, i requires 0 <= i < |ps| => CellId(ps[i].0, ps[i].1))
  }

  /** The inclusive rectangle between two cells, in the order the two loops visit it. */
  function Rect(c1: nat, r1: nat, c2: nat, r2: nat): seq<string>
    requires c1 < 26 && c2 < 26
  {
    var ps := BoxCells(Min(r1, r2), Max(r1, r2), Min(c1, c2), Max(c1, c2));
    BoxCellsSpec(Min(r1, r2), Max(r1, r2), Min(c1, c2), Max(c1, c2));
    assert forall i :: 0 <= i < |ps| ==> ps[i] in ps;
    IdsOf(ps)
  }

  /** The rectangle holds exactly the cells between the two corners, each once. */
  lemma RectSpec(c1: nat, r1: nat, c2: nat, r2: nat)
    requires c1 < 26 && c2 < 26
    ensures forall cc: nat, rr: nat :: cc < 26 ==>
              (CellId(cc, rr) in Rect(c1, r1, c2, r2) <==>
               Min(c1, c2) <= cc <= Max(c1, c2) && Min(r1, r2) <= rr <= Max(r1, r2))
    ensures forall i :: 0 <= i < |Rect(c1, r1, c2, r2)| ==>
              exists cc: nat, rr: nat :: cc < 26 && Rect(c1, r1, c2, r2)[i] == CellId(cc, rr) &&
                Min(c1, c2) <= cc <= Max(c1, c2) && Min(r1, r2) <= rr <= Max(r1, r2)
    ensures Distinct(Rect(c1, r1, c2, r2))
  {
    var rlo, rhi, clo, chi := Min(r1, r2), Max(r1, r2), Min(c1, c2), Max(c1, c2);
    var ps := BoxCells(rlo, rhi, clo, chi);
    BoxCellsSpec(rlo, rhi, clo, chi);
    var ids := Rect(c1, r1, c2, r2);
    assert forall i :: 0 <= i < |ps| ==> ps[i] in ps;
    forall cc: nat, rr: nat | cc < 26
      ensures CellId(cc, rr) in ids <==> InBox((cc, rr), rlo, rhi, clo, chi)
    {
      if CellId(cc, rr) in ids {
        var i :| 0 <= i < |ids| && ids[i] == CellId(cc, rr);
        CellIdInjective(cc, rr, ps[i].0, ps[i].1);
        assert ps[i] == (cc, rr);
      }
      if InBox((cc, rr), rlo, rhi, clo, chi) {
        var i :| 0 <= i < |ps| && ps[i] == (cc, rr);
        assert ids[i] == CellId(cc, rr);
      }
    }
    forall i, j | 0 <= i < j < |ids|
      ensures ids[i] != ids[j]
    {
      if ids[i] == ids[j] {
        CellIdInjective(ps[i].0, ps[i].1, ps[j].0, ps[j].1);
      }
    }
  }

  /* ---------- the mousedown handler ---------- */

  /** The selection after a ctrl or meta click: the id leaves if it was selected and
      joins at the end if it was not. */
  function ToggleCell(cells: seq<string>, id: string): seq<string>
  {
    if id in cells then Filter(cells, NotEqual(id)) else cells + [id]
  }

  function NotEqual(id: string): string -> bool {
    (x: string) => x != id
  }

  /** The mousedown handler as written. In the shift branch parseCell gives column
      LETTERS, the column loop never runs (ShiftCellsAsWritten), and the selection is left
      empty with its anchor. A shift click whose anchor does not parse throws before
      changing anything. */
  function Mousedown(p: Pointer, k: Click): (q: Pointer)
    requires k.col < 26
    ensures k.shift && p.sel.anchor.Some? && ParseCell(p.sel.anchor.value).Some? ==>
              q == Pointer(Selection([], p.sel.anchor), Some(CellId(k.col, k.row)))
    ensures k.shift && p.sel.anchor.Some? && ParseCell(p.sel.anchor.value).None? ==> q == p
    ensures !(k.shift && p.sel.anchor.Some?) && k.ctrl ==>
              q.sel.anchor == Some(CellId(k.col, k.row)) &&
              (CellId(k.col, k.row) in q.sel.cells <==> CellId(k.col, k.row) !in p.sel.cells) &&
              forall x :: x != CellId(k.col, k.row) ==> (x in q.sel.cells <==> x in p.sel.cells)
    ensures !(k.shift && p.sel.anchor.Some?) && !k.ctrl ==>
              q.sel == Selection([CellId(k.col, k.row)], Some(CellId(k.col, k.row)))
    ensures q == p || q.focused == Some(CellId(k.col, k.row))
  {
    var id := CellId(k.col, k.row);
    if k.shift && p.sel.anchor.Some? then
      if ParseCell(p.sel.anchor.value).None? then p
      else
        ParseCellId(k.col, k.row);
        Pointer(Selection(ShiftCellsAsWritten(p.sel.anchor.value, id), p.sel.anchor), Some(id))
    else if k.ctrl then
      Pointer(Selection(ToggleCell(p.sel.cells, id), Some(id)), Some(id))
    else
      Pointer(Selection([id], Some(id)), Some(id))
  }

  /** The mousedown handler as evidently intended, with the column letters decoded: a
      shift click selects the rectangle between the anchor and the clicked cell. An anchor
      that does not decode changes nothing. */
  function MousedownIntended(p: Pointer, k: Click): (q: Pointer)
    requires k.col < 26
    ensures k.shift && p.sel.anchor.Some? && Coord(p.sel.anchor.value).Some? ==>
              q.sel.anchor == p.sel.anchor &&
              q.sel.cells == Rect(k.col, k.row, Coord(p.sel.anchor.value).value.0, Coord(p.sel.anchor.value).value.1)
    ensures k.shift && p.sel.anchor.Some? && Coord(p.sel.anchor.value).None? ==> q == p
    ensures q == p || q.focused == Some(CellId(k.col, k.row))
  {
    var id := CellId(k.col, k.row);
    if k.shift && p.sel.anchor.Some? then
      match Coord(p.sel.anchor.value)
      case None => p
      case Some(a) => Pointer(Selection(Rect(a.0, a.1, k.col, k.row), p.sel.anchor), Some(id))
    else Mousedown(p, k)
  }

  /** The two versions differ only on a shift click with an anchor: there the written
      one empties the selection and the intended one selects a rectangle holding at least
      the clicked cell. */
  lemma MousedownVersions(p: Pointer, k: Click)
    requires k.col < 26
    ensures !(k.shift && p.sel.anchor.Some?) ==> MousedownIntended(p, k) == Mousedown(p, k)
    ensures k.shift && p.sel.anchor.Some? && Coord(p.sel.anchor.value).Some? ==>
              Mousedown(p, k).sel.cells == [] && CellId(k.col, k.row) in MousedownIntended(p, k).sel.cells
  {
    if k.shift && p.sel.anchor.Some? && Coord(p.sel.anchor.value).Some? {
      var a := Coord(p.sel.anchor.value).value;
      RectSpec(a.0, a.1, k.col, k.row);
    }
  }

  /** A selection never holds an id twice, in either version. */
  lemma MousedownKeepsDistinct(p: Pointer, k: Click)
    requires k.col < 26
    requires Distinct(p.sel.cells)
    ensures Distinct(Mousedown(p, k).sel.cells)
    ensures Distinct(MousedownIntended(p, k).sel.cells)
  {
    var id := CellId(k.col, k.row);
    if k.shift && p.sel.anchor.Some? {
      if Coord(p.sel.anchor.value).Some? {
        var a := Coord(p.sel.anchor.value).value;
        RectSpec(a.0, a.1, k.col, k.row);
      }
    } else if k.ctrl {
      if id in p.sel.cells {
        FilterKeepsDistinct(p.sel.cells, NotEqual(id));
      } else {
        DistinctConcat(p.sel.cells, [id]);
      }
    }
  }

  lemma {:induction false} FilterKeepsDistinct(s: seq<string>, keep: string -> bool)
    requires Distinct(s)
    ensures Distinct(Filter(s, keep))
    decreases |s|
  {
    if |s| > 0 {
      FilterKeepsDistinct(s[1..], keep);
      assert Distinct(s[1..]);
      var rest := Filter(s[1..], keep);
      forall x | x in rest
        ensures x != s[0]
      {
        assert x in s[1..];
      }
      DistinctConcat(if keep(s[0]) then [s[0]] else [], rest);
    }
  }

  /** As intended, a shift click from a grid cell selects a rectangle that holds both the
      anchor and the clicked cell, whichever of the two comes first. */
  lemma ShiftRectSpansBoth(p: Pointer, k: Click, ac: nat, ar: nat)
    requires k.col < 26 && ac < 26
    requires k.shift && p.sel.anchor == Some(CellId(ac, ar))
    ensures CellId(ac, ar) in MousedownIntended(p, k).sel.cells
    ensures CellId(k.col, k.row) in MousedownIntended(p, k).sel.cells
    ensures MousedownIntended(p, k).sel.cells == Rect(ac, ar, k.col, k.row)
  {
    CoordOfCellId(ac, ar);
    RectSpec(ac, ar, k.col, k.row);
  }

  /* ---------- the focus handler ---------- */

  /** A cell taking the keyboard focus: it becomes the focused cell and the whole
      selection, while the anchor stays where it was. */
  function Focus(p: Pointer, id: string): (q: Pointer)
    ensures q.focused == Some(id) && q.sel.anchor == p.sel.anchor
    ensures forall x :: x in q.sel.cells <==> x == id
    ensures Distinct(q.sel.cells)
  {
    Pointer(Selection([id], p.sel.anchor), Some(id))
  }

  /** When a mousedown is followed by the clicked cell taking the focus, what is left
      selected is the clicked cell alone, whatever the modifier keys chose, and the anchor
      is the one the mousedown set. */
  lemma FocusAfterMousedown(p: Pointer, k: Click)
    requires k.col < 26
    ensures var m := Mousedown(p, k);
            var q := Focus(m, CellId(k.col, k.row));
            q.sel.cells == [CellId(k.col, k.row)] && q.sel.anchor == m.sel.anchor &&
            (!(k.shift && p.sel.anchor.Some?) ==> q.sel == Selection([CellId(k.col, k.row)], Some(CellId(k.col, k.row))))
  {
  }

  /* ---------- a whole click on the page ---------- */

  /** A click on a cell as the page runs it: the mousedown handler, then the focus handler
      unless the cell's element already holds the keyboard focus (`hasFocus`, DOM state the
      model takes as a parameter). */
  function PageClick(p: Pointer, k: Click, hasFocus: bool): (q: Pointer)
    requires k.col < 26
    ensures !hasFocus ==> q.focused == Some(CellId(k.col, k.row)) && q.sel.cells == [CellId(k.col, k.row)]
    ensures hasFocus && k.shift && p.sel.anchor.Some? && ParseCell(p.sel.anchor.value).Some? ==>
              q.sel.cells == [] && q.sel.anchor == p.sel.anchor
  {
    var m := Mousedown(p, k);
    if hasFocus then m else Focus(m, CellId(k.col, k.row))
  }

  /** The same click with the intended mousedown handler. */
  function PageClickIntended(p: Pointer, k: Click, hasFocus: bool): (q: Pointer)
    requires k.col < 26
    ensures !hasFocus ==> q.focused == Some(CellId(k.col, k.row)) && q.sel.cells == [CellId(k.col, k.row)]
    ensures hasFocus && k.shift && p.sel.anchor.Some? && Coord(p.sel.anchor.value).Some? ==>
              q.sel.cells == Rect(k.col, k.row, Coord(p.sel.anchor.value).value.0, Coord(p.sel.anchor.value).value.1)
  {
    var m := MousedownIntended(p, k);
    if hasFocus then m else Focus(m, CellId(k.col, k.row))
  }

  /** On a cell without the focus the focus handler overrides whatever the mousedown chose,
      so the two versions of the whole click agree. */
  lemma PageClickVersionsAgreeUnfocused(p: Pointer, k: Click)
    requires k.col < 26
    ensures PageClick(p, k, false) == PageClickIntended(p, k, false)
  {
  }

  /** A shift click on the cell that already holds the focus fires no focus event: as
      written the selection is left empty, as intended it is the rectangle from the anchor,
      which holds the clicked cell. */
  lemma ShiftClickOnFocusedCell(p: Pointer, k: Click)
    requires k.col < 26
    requires k.shift && p.sel.anchor.Some? && Coord(p.sel.anchor.value).Some?
    ensures PageClick(p, k, true).sel.cells == []
    ensures CellId(k.col, k.row) in PageClickIntended(p, k, true).sel.cells
  {
    var a := Coord(p.sel.anchor.value).value;
    RectSpec(k.col, k.row, a.0, a.1);
  }

  /** Click A1, then shift click A1 while it still holds the focus: as written nothing is
      selected, so a following Bold styles no cell; as intended A1 is selected. */
  lemma ClickThenShiftClickSameCell()
    ensures var p1 := PageClick(Pointer(Selection([], None), None), Click(0, 1, false, false), false);
            PageClick(p1, Click(0, 1, true, false), true).sel.cells == []
    ensures var p1 := PageClickIntended(Pointer(Selection([], None), None), Click(0, 1, false, false), false);
            PageClickIntended(p1, Click(0, 1, true, false), true).sel.cells == [CellId(0, 1)]
  {
    CoordOfCellId(0, 1);
    var p1 := PageClickIntended(Pointer(Selection([], None), None), Click(0, 1, false, false), false);
    assert p1.sel.anchor == Some(CellId(0, 1));
    assert BoxCells(1, 1, 0, 0) == [(0, 1)];
    assert Rect(0, 1, 0, 1) == [CellId(0, 1)];
  }

  /** Every selected cell is the focused one. */
  predicate FocusedOnly(p: Pointer) {
    forall x :: x in p.sel.cells ==> p.focused == Some(x)
  }

  /** As written, whole clicks never select more than the focused cell: a mousedown on an
      unfocused cell is overridden by the focus handler, and on the focused cell the shift
      branch empties the selection while ctrl can only add or drop that cell. The element
      holding the focus is the cell the focus handler last recorded. */
  lemma PageClickKeepsFocusedOnly(p: Pointer, k: Click, hasFocus: bool)
    requires k.col < 26
    requires hasFocus ==> p.focused == Some(CellId(k.col, k.row))
    requires FocusedOnly(p)
    ensures FocusedOnly(PageClick(p, k, hasFocus))
  {
    var id := CellId(k.col, k.row);
    if hasFocus && !(k.shift && p.sel.anchor.Some?) && k.ctrl && id in p.sel.cells {
      var q := PageClick(p, k, hasFocus);
      assert q.sel.cells == Filter(p.sel.cells, NotEqual(id));
      forall x | x in q.sel.cells ensures q.focused == Some(x) {
        assert x in p.sel.cells;
      }
    }
  }

  /* ---------- the shift branch as written ---------- */

  /** The shift branch as written: parseCell yields the column LETTERS, Math.min and
      Math.max of two letters are NaN, and the column loop `c <= maxC` never runs, so the
      cleared selection stays empty. */
  function ShiftCellsAsWritten(anchor: string, id: string): (r: seq<string>)
    requires ParseCell(anchor).Some? && ParseCell(id).Some?
    ensures r == []
  {
    var pa := ParseCell(anchor).value;
    var pi := ParseCell(id).value;
    assert AllUpper(pa.0) && AllUpper(pi.0) by {
      assert CellSplit(anchor, |pa.0|) && CellSplit(id, |pi.0|);
      assert forall j :: 0 <= j < |pa.0| ==> pa.0[j] == anchor[..|pa.0|][j];
      assert forall j :: 0 <= j < |pi.0| ==> pi.0[j] == id[..|pi.0|][j];
    }
    var minC := JsMin(LettersToNumber(pa.0), LettersToNumber(pi.0));
    var maxC := JsMax(LettersToNumber(pa.0), LettersToNumber(pi.0));
    if JsLe(minC, maxC) then assert false; [] else []
  }

  /** Every shift click between two grid cells empties the selection as written. */
  lemma ShiftClickAsWrittenClears(ac: nat, ar: nat, c: nat, r: nat)
    requires ac < 26 && c < 26
    ensures ShiftCellsAsWritten(CellId(ac, ar), CellId(c, r)) == []
    ensures |Rect(ac, ar, c, r)| > 0
  {
    CoordOfCellId(ac, ar);
    CoordOfCellId(c, r);
    RectSpec(ac, ar, c, r);
    assert CellId(c, r) in Rect(ac, ar, c, r);
  }
}
