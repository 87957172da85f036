/** Column filters of the spreadsheet (apps/day04-sheets/app.js): the values a column's
    filter dialog lists, the checkbox handler that edits the set of shown values, the
    Clear button, and the row test of applyAllFiltersIfAny. A column with no entry in
    `filters` is not filtered. */
module SheetFilter {
  import opened Common
  import opened SheetAddress
  import opened SheetModel

  type Filters = map<int, set<string>>

  /** The text a filter compares: `String(cell.value)` for a present cell, `''` for a
      missing one. A cell that only carries a style has no value and gives "undefined". */
  function CellText(data: map<string, Cell>, id: string): string {
    if id in data then ToText(data[id].value) else ""
  }

  /** The values listed in the filter dialog of column `col`: exactly the texts of the
      cells of rows 1..rows whose value is truthy. */
  function ColumnValues(sheet: Sheet, col: nat): (vs: set<string>)
    requires col < 26
    ensures forall r: nat :: 1 <= r <= sheet.rows && CellId(col, r) in sheet.data && Truthy(sheet.data[CellId(col, r)].value) ==>
              CellText(sheet.data, CellId(col, r)) in vs
    ensures forall v :: v in vs ==>
              exists r: nat :: 1 <= r <= sheet.rows && CellId(col, r) in sheet.data &&
                Truthy(sheet.data[CellId(col, r)].value) && v == CellText(sheet.data, CellId(col, r))
    ensures "" !in vs
  {
    set r: nat | 1 <= r <= sheet.rows && CellId(col, r) in sheet.data && Truthy(sheet.data[CellId(col, r)].value) ::
      TruthyText(sheet.data[CellId(col, r)].value);
      ToText(sheet.data[CellId(col, r)].value)
  }

  /** A truthy value never prints as the empty string. */
  lemma TruthyText(v: Value)
    requires Truthy(v)
    ensures ToText(v) != ""
  {
    if v.Number? {
      assert |IntToString(v.n)| > 0;
    }
  }

  /** A checkbox is ticked unless the column is filtered and the value is not in its set
      (`active !== false`). */
  predicate Checked(f: Filters, col: int, v: string) {
    col !in f || v in f[col]
  }

  /** The checkbox handler as written: a missing set starts empty, the value is added or
      removed, and an emptied set is dropped. */
  function SetChecked(f: Filters, col: int, v: string, checked: bool): (g: Filters)
    ensures forall k :: k != col ==> (k in g <==> k in f) && (k in g ==> g[k] == f[k])
  {
    var base := if col in f then f[col] else {};
    var s := if checked then base + {v} else base - {v};
    if s == {} then f - {col} else f[col := s]
  }

  /** The Clear button. */
  function ClearFilter(f: Filters, col: int): (g: Filters)
    ensures col !in g
    ensures forall k :: k != col ==> (k in g <==> k in f) && (k in g ==> g[k] == f[k])
  {
    f - {col}
  }

  /** Whether row `r` stays visible: with no filter every row shows; otherwise, for every
      filtered column, the text of that column's cell in the row is one of its shown
      values. */
  function RowShown(sheet: Sheet, f: Filters, r: nat): (shown: bool)
    ensures f == map[] ==> shown
    ensures (exists col :: col in f && !(0 <= col < 26)) ==> !shown
  {
    && (forall col :: col in f ==> 0 <= col < 26)
    && (forall col :: col in f && 0 <= col < 26 ==> CellText(sheet.data, CellId(col, r)) in f[col])
  }

  /** Without filters nothing is hidden. */
  lemma NoFilterShowsAll(sheet: Sheet, r: nat)
    ensures RowShown(sheet, map[], r)
  {
  }

  /** A filtered column hides every row whose cell in it is missing or empty: the dialog
      never lists the empty text, so the set holds it only if it was put there another
      way. */
  lemma FilteredColumnHidesBlankRows(sheet: Sheet, f: Filters, col: nat, r: nat)
    requires col < 26 && col in f && "" !in f[col]
    requires CellId(col, r) !in sheet.data
    ensures !RowShown(sheet, f, r)
  {
  }

  /** Clearing a column's filter never hides a row that was shown. */
  lemma ClearShowsMore(sheet: Sheet, f: Filters, col: int, r: nat)
    requires RowShown(sheet, f, r)
    ensures RowShown(sheet, ClearFilter(f, col), r)
  {
  }

  /** Ticking a value of an already filtered column never hides a row; unticking one of a
      filtered column never shows a row unless it empties the set and so drops the
      filter. */
  lemma CheckWidensUncheckNarrows(sheet: Sheet, f: Filters, col: int, v: string, r: nat)
    requires col in f
    ensures RowShown(sheet, f, r) ==> RowShown(sheet, SetChecked(f, col, v, true), r)
    ensures col in SetChecked(f, col, v, false) && RowShown(sheet, SetChecked(f, col, v, false), r) ==>
              RowShown(sheet, f, r)
  {
    var g := SetChecked(f, col, v, false);
    if col in g && RowShown(sheet, g, r) {
      assert g[col] <= f[col];
      forall k | k in f ensures 0 <= k < 26 && CellText(sheet.data, CellId(k, r)) in f[k] {
        assert k in g;
      }
    }
  }

  /** On a filtered column, the handler makes the changed box show what was clicked and
      leaves every other box as it was, or drops the filter when the last value goes. */
  lemma SetCheckedOnFilteredColumn(f: Filters, col: int, v: string, checked: bool)
    requires col in f
    ensures var g := SetChecked(f, col, v, checked);
            col !in g ==> !checked && f[col] <= {v}
    ensures var g := SetChecked(f, col, v, checked);
            col in g ==> Checked(g, col, v) == checked &&
                         forall u :: u != v ==> Checked(g, col, u) == Checked(f, col, u)
  {
  }

  /** As written, unticking a value of a column with no filter is lost: the new set starts
      empty, stays empty and is dropped, so the value still counts as ticked and every
      row stays visible. */
  lemma UncheckUnfilteredIsLost(f: Filters, col: int, v: string)
    requires col !in f
    ensures SetChecked(f, col, v, false) == f
    ensures Checked(SetChecked(f, col, v, false), col, v)
  {
  }

  /** The handler as evidently intended: a column without a filter shows all the values
      its dialog lists, so the edit starts from that list. */
  function SetCheckedIntended(f: Filters, col: int, listed: set<string>, v: string, checked: bool): (g: Filters)
    ensures forall k :: k != col ==> (k in g <==> k in f) && (k in g ==> g[k] == f[k])
  {
    var base := if col in f then f[col] else listed;
    var s := if checked then base + {v} else base - {v};
    if s == {} then f - {col} else f[col := s]
  }

  /** The intended handler agrees with the written one on a filtered column, and on any
      column turns exactly the clicked box into what was clicked, unless unticking the
      last ticked value drops the filter. */
  lemma SetCheckedIntendedSpec(f: Filters, col: int, listed: set<string>, v: string, checked: bool)
    requires v in listed
    requires col in f ==> f[col] <= listed
    ensures col in f ==> SetCheckedIntended(f, col, listed, v, checked) == SetChecked(f, col, v, checked)
    ensures var g := SetCheckedIntended(f, col, listed, v, checked);
            col in g ==> Checked(g, col, v) == checked &&
                         forall u :: u in listed && u != v ==> Checked(g, col, u) == Checked(f, col, u)
    ensures var g := SetCheckedIntended(f, col, listed, v, checked);
            col !in g ==> !checked && forall u :: u in listed && u != v ==> !Checked(f, col, u)
  {
    var base := if col in f then f[col] else listed;
    var s := if checked then base + {v} else base - {v};
    if checked {
      assert v in s;
    }
    forall u | u in listed && u != v && s == {}
      ensures !Checked(f, col, u)
    {
      assert u !in s;
    }
  }

  /** Concretely: unticking "x" in a fresh dialog listing "x" and "y" hides the rows
      holding "x" as intended, and hides nothing as written. */
  lemma UncheckFreshColumn()
    ensures !Checked(SetCheckedIntended(map[], 0, {"x", "y"}, "x", false), 0, "x")
    ensures Checked(SetChecked(map[], 0, "x", false), 0, "x")
  {
    assert "x"[0] != "y"[0];
    assert "y" in ({"x", "y"} - {"x"});
  }
}
