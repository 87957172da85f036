/** The workbook-level operations of the spreadsheet (apps/day04-sheets/app.js): committing
    a cell edit with its undo snapshot, undo, the sheet list (rename, delete, select, add)
    and the grid size inputs. A snapshot is the JSON text of the whole workbook; the model
    keeps the workbook itself. */
module SheetSession {
  import opened Common
  import opened Seqs
  import opened SheetModel
  import opened SheetAddress
  import opened SheetFormula
  import opened SheetSelection

  /** The workbook being edited, the selection with the focused cell, and the undo
      snapshots, oldest first. */
  datatype Session = Session(wb: Workbook, ptr: Pointer, history: seq<Workbook>)

  /** The state the page starts in, on a fresh workbook. */
  function Start(sheetId: string): (s: Session)
    ensures ValidWorkbook(s.wb) && |s.wb.sheets| == 1 && s.history == []
    ensures s.ptr == Pointer(Selection([], None), None)
  {
    Session(CreateWorkbook(sheetId), Pointer(Selection([], None), None), [])
  }

  const HistoryMax := 20

  /** pushUndo: the snapshot goes on top and, past the limit, the oldest one is dropped. */
  function PushUndo(h: seq<Workbook>, w: Workbook): (r: seq<Workbook>)
    ensures |r| > 0 && r[|r| - 1] == w
    ensures |h| < HistoryMax ==> r == h + [w]
    ensures |h| <= HistoryMax ==> |r| <= HistoryMax
    ensures |h| >= HistoryMax ==> r == h[1..] + [w]
  {
    var pushed := h + [w];
    if |pushed| > HistoryMax then pushed[1..] else pushed
  }

  /** undo: with no snapshot nothing happens; otherwise the newest one is popped and
      becomes the workbook. The selection and focus stay. */
  function Undo(s: Session): (r: Session)
    ensures |s.history| == 0 ==> r == s
    ensures |s.history| > 0 ==> r.wb == s.history[|s.history| - 1] && r.history + [r.wb] == s.history
    ensures r.ptr == s.ptr
  {
    if |s.history| == 0 then s
    else Session(s.history[|s.history| - 1], s.ptr, s.history[..|s.history| - 1])
  }

  /** A mousedown on a grid cell moves the selection and focus and touches nothing else:
      a plain click selects the cell alone, and a shift click from a parsable anchor
      leaves the selection empty (the column letters give NaN bounds). */
  function ClickCell(s: Session, k: Click): (r: Session)
    requires k.col < 26
    ensures r.wb == s.wb && r.history == s.history
    ensures k.shift && s.ptr.sel.anchor.Some? && ParseCell(s.ptr.sel.anchor.value).Some? ==>
              r.ptr.sel == Selection([], s.ptr.sel.anchor) && r.ptr.focused == Some(CellId(k.col, k.row))
    ensures !(k.shift && s.ptr.sel.anchor.Some?) && !k.ctrl ==>
              r.ptr.sel == Selection([CellId(k.col, k.row)], Some(CellId(k.col, k.row)))
    ensures !(k.shift && s.ptr.sel.anchor.Some?) ==> r.ptr.focused == Some(CellId(k.col, k.row))
  {
    s.(ptr := Mousedown(s.ptr, k))
  }

  /** Whether commitEdit takes a snapshot: when the cell existed before or exists after. */
  predicate CommitPushes(w: Workbook, id: string, raw: string)
    requires ValidWorkbook(w)
  {
    id in ActiveSheet(w).data || raw != ""
  }

  /** commitEdit on the active sheet: the cell is set or deleted, then, if the cell existed
      before or exists now, the new workbook is pushed as a snapshot. */
  function Commit(s: Session, id: string, raw: string, isExpr: bool, eval: string -> Option<Value>): (r: Session)
    requires ValidWorkbook(s.wb)
    ensures ValidWorkbook(r.wb) && r.wb.active == s.wb.active && |r.wb.sheets| == |s.wb.sheets|
    ensures r.ptr == s.ptr
    ensures ActiveSheet(r.wb) == ActiveSheet(s.wb).(data := CommitData(ActiveSheet(s.wb).data, id, raw, isExpr, eval))
    ensures forall i :: 0 <= i < |s.wb.sheets| && i != s.wb.active ==> r.wb.sheets[i] == s.wb.sheets[i]
    ensures CommitPushes(s.wb, id, raw) ==> r.history == PushUndo(s.history, r.wb)
    ensures !CommitPushes(s.wb, id, raw) ==> r.history == s.history
  {
    var w := WithActiveData(s.wb, CommitData(ActiveSheet(s.wb).data, id, raw, isExpr, eval));
    Session(w, s.ptr, if CommitPushes(s.wb, id, raw) then PushUndo(s.history, w) else s.history)
  }

  /** Pressing Enter in the formula bar, as written: the focused cell, or the key "null"
      when no cell has focus, gets the bar's text without its first character, as a
      formula exactly when that character was `=`. Text of one character or none deletes
      the cell. */
  function FormulaBarCommit(s: Session, input: string, eval: string -> Option<Value>): (r: Session)
    requires ValidWorkbook(s.wb)
    ensures ValidWorkbook(r.wb)
    ensures var id := s.ptr.focused.GetOr("null");
            StartsWith(input, "=") && |input| > 1 ==>
              id in ActiveSheet(r.wb).data && ActiveSheet(r.wb).data[id].expr == Some(input[1..])
    ensures var id := s.ptr.focused.GetOr("null");
            !StartsWith(input, "=") && |input| > 1 ==>
              id in ActiveSheet(r.wb).data && ActiveSheet(r.wb).data[id].value == Text(input[1..]) &&
              ActiveSheet(r.wb).data[id].expr.None?
    ensures |input| <= 1 ==> s.ptr.focused.GetOr("null") !in ActiveSheet(r.wb).data
  {
    var e := FormulaEnterAsWritten(input);
    Commit(s, s.ptr.focused.GetOr("null"), e.0, e.1, eval)
  }

  /** Typing "4" over the bar and pressing Enter deletes the focused cell. */
  lemma FormulaBarDeletesOnOneChar(s: Session, eval: string -> Option<Value>)
    requires ValidWorkbook(s.wb) && s.ptr.focused.Some?
    ensures s.ptr.focused.value !in ActiveSheet(FormulaBarCommit(s, "4", eval).wb).data
  {
  }

  /** Enter in the formula bar as evidently intended: only a leading `=` is removed, and
      other non-empty text is stored whole. */
  function FormulaBarCommitIntended(s: Session, input: string, eval: string -> Option<Value>): (r: Session)
    requires ValidWorkbook(s.wb)
    ensures ValidWorkbook(r.wb)
    ensures var id := s.ptr.focused.GetOr("null");
            StartsWith(input, "=") && |input| > 1 ==>
              id in ActiveSheet(r.wb).data && ActiveSheet(r.wb).data[id].expr == Some(input[1..])
    ensures var id := s.ptr.focused.GetOr("null");
            !StartsWith(input, "=") && input != "" ==>
              id in ActiveSheet(r.wb).data && ActiveSheet(r.wb).data[id].value == Text(input) &&
              ActiveSheet(r.wb).data[id].expr.None?
  {
    var e := FormulaEnter(input);
    Commit(s, s.ptr.focused.GetOr("null"), e.0, e.1, eval)
  }

  /** The written and intended Enter give the same session whenever the bar's text
      starts with `=`, which is always the case for text the bar itself shows. */
  lemma FormulaBarCommitsAgreeOnFormulas(s: Session, input: string, eval: string -> Option<Value>)
    requires ValidWorkbook(s.wb) && StartsWith(input, "=")
    ensures FormulaBarCommit(s, input, eval) == FormulaBarCommitIntended(s, input, eval)
  {
  }

  /** Because the snapshot is pushed after the edit, the first undo after a commit that
      pushed gives back the committed workbook: the edit stays on screen. */
  lemma UndoAfterCommitShowsCommit(s: Session, id: string, raw: string, isExpr: bool, eval: string -> Option<Value>)
    requires ValidWorkbook(s.wb) && CommitPushes(s.wb, id, raw)
    ensures Undo(Commit(s, id, raw, isExpr, eval)).wb == Commit(s, id, raw, isExpr, eval).wb
  {
  }

  /** Concretely: typing "1" into an empty A1 and pressing undo leaves "1" in A1. */
  lemma TypeThenUndoKeepsText(sheetId: string, eval: string -> Option<Value>)
    ensures var s := Start(sheetId);
            var u := Undo(Commit(s, "A1", "1", false, eval));
            "A1" in ActiveSheet(u.wb).data && ActiveSheet(u.wb).data["A1"].value == Text("1")
  {
  }

  /** commitEdit with the snapshot taken before the edit, as an undo that reverts the edit
      needs. */
  function CommitSnapshotFirst(s: Session, id: string, raw: string, isExpr: bool, eval: string -> Option<Value>): (r: Session)
    requires ValidWorkbook(s.wb)
    ensures r.wb == Commit(s, id, raw, isExpr, eval).wb
    ensures CommitPushes(s.wb, id, raw) ==> r.history == PushUndo(s.history, s.wb)
    ensures !CommitPushes(s.wb, id, raw) ==> r.history == s.history
  {
    var w := WithActiveData(s.wb, CommitData(ActiveSheet(s.wb).data, id, raw, isExpr, eval));
    Session(w, s.ptr, if CommitPushes(s.wb, id, raw) then PushUndo(s.history, s.wb) else s.history)
  }

  /** With the snapshot taken first, undo right after a commit restores the workbook as
      it was, and, below the limit, the history too. */
  lemma UndoRevertsCommit(s: Session, id: string, raw: string, isExpr: bool, eval: string -> Option<Value>)
    requires ValidWorkbook(s.wb) && CommitPushes(s.wb, id, raw)
    ensures Undo(CommitSnapshotFirst(s, id, raw, isExpr, eval)).wb == s.wb
    ensures |s.history| < HistoryMax ==> Undo(CommitSnapshotFirst(s, id, raw, isExpr, eval)).history == s.history
  {
  }

  /* ---------- the sheet list ---------- */

  /** Edit: a new name replaces the old one unless the prompt gave nothing. */
  function RenameSheet(w: Workbook, idx: nat, newName: string): (r: Workbook)
    requires ValidWorkbook(w) && idx < |w.sheets|
    ensures ValidWorkbook(r) && r.active == w.active && |r.sheets| == |w.sheets|
    ensures r.sheets[idx].name == (if newName == "" then w.sheets[idx].name else newName)
    ensures r.sheets[idx] == w.sheets[idx].(name := r.sheets[idx].name)
    ensures forall i :: 0 <= i < |w.sheets| && i != idx ==> r.sheets[i] == w.sheets[i]
  {
    if newName == "" then w else w.(sheets := w.sheets[idx := w.sheets[idx].(name := newName)])
  }

  /** A click on a sheet's row makes it the active sheet. */
  function SelectSheet(w: Workbook, idx: nat): (r: Workbook)
    requires ValidWorkbook(w) && idx < |w.sheets|
    ensures ValidWorkbook(r) && r.sheets == w.sheets && ActiveSheet(r) == w.sheets[idx]
  {
    w.(active := idx)
  }

  /** Delete as written: refused for the last sheet and when not confirmed; otherwise the
      sheet is spliced out and the active index steps back by one, whichever sheet went. */
  function DeleteSheet(w: Workbook, idx: nat, confirmed: bool): (r: Workbook)
    requires ValidWorkbook(w) && idx < |w.sheets|
    ensures ValidWorkbook(r)
    ensures |w.sheets| == 1 || !confirmed ==> r == w
    ensures |w.sheets| > 1 && confirmed ==>
              r.sheets == RemoveAt(w.sheets, idx) && r.active == Max(0, w.active - 1)
  {
    if |w.sheets| == 1 || !confirmed then w
    else w.(sheets := RemoveAt(w.sheets, idx), active := Max(0, w.active - 1))
  }

  /** Deleting a sheet before the active one keeps the same sheet in view. */
  lemma DeleteBeforeActiveKeepsView(w: Workbook, idx: nat)
    requires ValidWorkbook(w) && idx < w.active
    ensures ActiveSheet(DeleteSheet(w, idx, true)) == ActiveSheet(w)
  {
  }

  /** As written, deleting a sheet after the active one moves the view back a sheet:
      with three sheets and the second active, deleting the third shows the first. */
  lemma DeleteAfterActiveMovesView(w: Workbook, idx: nat)
    requires ValidWorkbook(w) && w.active < idx < |w.sheets| && w.active > 0
    ensures ActiveSheet(DeleteSheet(w, idx, true)) == w.sheets[w.active - 1]
  {
  }

  /** Delete with the active index adjusted only when the deleted sheet sat at or before
      it. */
  function DeleteSheetIntended(w: Workbook, idx: nat, confirmed: bool): (r: Workbook)
    requires ValidWorkbook(w) && idx < |w.sheets|
    ensures ValidWorkbook(r)
    ensures |w.sheets| == 1 || !confirmed ==> r == w
    ensures |w.sheets| > 1 && confirmed ==> r.sheets == RemoveAt(w.sheets, idx)
  {
    if |w.sheets| == 1 || !confirmed then w
    else w.(sheets := RemoveAt(w.sheets, idx), active := if idx <= w.active then Max(0, w.active - 1) else w.active)
  }

  /** With the intended delete, removing any sheet other than the active one keeps the
      active sheet in view, and removing the active one shows its neighbour. */
  lemma DeleteIntendedKeepsView(w: Workbook, idx: nat)
    requires ValidWorkbook(w) && idx < |w.sheets| && |w.sheets| > 1
    ensures idx != w.active ==> ActiveSheet(DeleteSheetIntended(w, idx, true)) == ActiveSheet(w)
    ensures idx == w.active && w.active > 0 ==> ActiveSheet(DeleteSheetIntended(w, idx, true)) == w.sheets[w.active - 1]
    ensures idx == w.active && w.active == 0 ==> ActiveSheet(DeleteSheetIntended(w, idx, true)) == w.sheets[1]
  {
  }

  /** Add sheet: a cancelled or empty name does nothing; otherwise a fresh sheet is
      appended and becomes active. */
  function AddSheet(w: Workbook, name: string, sheetId: string): (r: Workbook)
    requires ValidWorkbook(w)
    ensures ValidWorkbook(r)
    ensures name == "" ==> r == w
    ensures name != "" ==> r.sheets == w.sheets + [CreateSheet(sheetId, name)] &&
                           ActiveSheet(r) == CreateSheet(sheetId, name)
  {
    if name == "" then w else w.(sheets := w.sheets + [CreateSheet(sheetId, name)], active := |w.sheets|)
  }

  /* ---------- the grid size inputs ---------- */

  /** The column count input: a count outside 1..26 is ignored. */
  function SetColCount(sheet: Sheet, n: int): (r: Sheet)
    ensures 1 <= n <= 26 ==> r == sheet.(cols := n)
    ensures !(1 <= n <= 26) ==> r == sheet
  {
    if n < 1 || n > 26 then sheet else sheet.(cols := n)
  }

  /** The row count input: a count outside 1..1000 is ignored. */
  function SetRowCount(sheet: Sheet, n: int): (r: Sheet)
    ensures 1 <= n <= 1000 ==> r == sheet.(rows := n)
    ensures !(1 <= n <= 1000) ==> r == sheet
  {
    if n < 1 || n > 1000 then sheet else sheet.(rows := n)
  }

  /** The size inputs keep a sheet's size in range. */
  lemma SetCountsKeepSizes(sheet: Sheet, c: int, r: int)
    requires SizesInRange(sheet)
    ensures SizesInRange(SetColCount(sheet, c)) && SizesInRange(SetRowCount(sheet, r))
  {
  }

  /** The Resize button as written: each prompt's answer, when given, is stored without a
      bounds check (`None` is a cancelled or empty prompt). */
  function ResizeGridAsWritten(sheet: Sheet, c: Option<int>, r: Option<int>): (s: Sheet)
    ensures s.cols == c.GetOr(sheet.cols) && s.rows == r.GetOr(sheet.rows)
    ensures s.data == sheet.data
  {
    var s1 := if c.Some? then sheet.(cols := c.value) else sheet;
    if r.Some? then s1.(rows := r.value) else s1
  }

  /** As written, answering 100 columns leaves a sheet with more columns than there are
      letters, and 0 rows leaves one with no rows. */
  lemma ResizeGridAsWrittenLeavesRange(sheet: Sheet)
    requires SizesInRange(sheet)
    ensures !SizesInRange(ResizeGridAsWritten(sheet, Some(100), None))
    ensures !SizesInRange(ResizeGridAsWritten(sheet, None, Some(0)))
  {
  }

  /** The Resize button with the same bounds as the two count inputs. */
  function ResizeGrid(sheet: Sheet, c: Option<int>, r: Option<int>): (s: Sheet)
    ensures SizesInRange(sheet) ==> SizesInRange(s)
    ensures c.Some? && 1 <= c.value <= 26 ==> s.cols == c.value
    ensures r.Some? && 1 <= r.value <= 1000 ==> s.rows == r.value
    ensures s.data == sheet.data && s.tables == sheet.tables && s.filters == sheet.filters
  {
    var s1 := if c.Some? then SetColCount(sheet, c.value) else sheet;
    if r.Some? then SetRowCount(s1, r.value) else s1
  }

  /** Within range the corrected button does just what the written one does. */
  lemma ResizeGridAgreesInRange(sheet: Sheet, c: Option<int>, r: Option<int>)
    requires c.Some? ==> 1 <= c.value <= 26
    requires r.Some? ==> 1 <= r.value <= 1000
    ensures ResizeGrid(sheet, c, r) == ResizeGridAsWritten(sheet, c, r)
  {
  }
}
