/** The style actions of the spreadsheet toolbar (apps/day04-sheets/app.js): toggleStyle,
    cycleAlign and applyFill. Each visits the selected ids, creates a missing cell and a
    missing style record, and changes one style key. */
module SheetStyle {
  import opened Common
  import opened Seqs
  import opened SheetModel

  /** Applies `f` to the cell of each id in turn, creating the cell where it is missing. */
  function UpdateEach(data: map<string, Cell>, ids: seq<string>, f: Option<Cell> -> Cell): (r: map<string, Cell>)
    ensures forall id :: id in ids ==> id in r
    ensures forall id :: id !in ids ==> Lookup(r, id) == Lookup(data, id)
    decreases |ids|
  {
    if |ids| == 0 then data
    else UpdateEach(data[ids[0] := f(Lookup(data, ids[0]))], ids[1..], f)
  }

  /** With no id repeated (the ids of a Set), each selected cell is `f` of its old self and
      every other cell keeps what it had, present or absent. */
  lemma {:induction false} UpdateEachSpec(data: map<string, Cell>, ids: seq<string>, f: Option<Cell> -> Cell)
    requires Distinct(ids)
    ensures forall id :: Lookup(UpdateEach(data, ids, f), id) ==
                           if id in ids then Some(f(Lookup(data, id))) else Lookup(data, id)
    decreases |ids|
  {
    if |ids| > 0 {
      var d1 := data[ids[0] := f(Lookup(data, ids[0]))];
      assert Distinct(ids[1..]);
      UpdateEachSpec(d1, ids[1..], f);
      forall id
        ensures Lookup(UpdateEach(data, ids, f), id) ==
                if id in ids then Some(f(Lookup(data, id))) else Lookup(data, id)
      {
        if id == ids[0] {
          assert id !in ids[1..];
        } else {
          assert id in ids <==> id in ids[1..];
        }
      }
    }
  }

  /** The cell after `sheet.data[id] || (sheet.data[id] = {})` and `cell.style || {}`,
      with `g` applied to its style record. */
  function Restyle(cell: Option<Cell>, g: Style -> Style): (r: Cell)
    ensures cell.Some? ==> r.value == cell.value.value && r.expr == cell.value.expr
    ensures cell.None? ==> r.value == Undefined && r.expr == None
    ensures r.style == Some(g(if cell.Some? && cell.value.style.Some? then cell.value.style.value else EmptyStyle))
  {
    var base := cell.GetOr(EmptyCell);
    base.(style := Some(g(base.style.GetOr(EmptyStyle))))
  }

  /* ---------- toggleStyle ---------- */

  /** The four on/off style keys. */
  datatype Prop = Bold | Italic | Underline | Wrap

  function GetProp(st: Style, p: Prop): Option<bool> {
    match p
    case Bold => st.bold
    case Italic => st.italic
    case Underline => st.underline
    case Wrap => st.wrap
  }

  function SetProp(st: Style, p: Prop, v: Option<bool>): (r: Style)
    ensures GetProp(r, p) == v
    ensures forall q :: q != p ==> GetProp(r, q) == GetProp(st, q)
    ensures r.align == st.align && r.fill == st.fill
  {
    match p
    case Bold => st.(bold := v)
    case Italic => st.(italic := v)
    case Underline => st.(underline := v)
    case Wrap => st.(wrap := v)
  }

  /** `!style[prop]`: an absent key counts as off. */
  function Toggle(o: Option<bool>): (r: Option<bool>)
    ensures r.Some? && (r.value <==> o != Some(true))
  {
    Some(o != Some(true))
  }

  function ToggleStyle(data: map<string, Cell>, ids: seq<string>, p: Prop): (r: map<string, Cell>)
    ensures forall id :: id in ids ==> id in r
    ensures forall id :: id !in ids ==> Lookup(r, id) == Lookup(data, id)
  {
    UpdateEach(data, ids, (c: Option<Cell>) => Restyle(c, (st: Style) => SetProp(st, p, Toggle(GetProp(st, p)))))
  }

  /** Whether a key is on in a cell's style. */
  predicate IsOn(cell: Option<Cell>, p: Prop) {
    cell.Some? && cell.value.style.Some? && GetProp(cell.value.style.value, p) == Some(true)
  }

  /** toggleStyle flips the key on every selected cell, creating the cell if need be, and
      keeps the cell's value, formula and other style keys; other cells do not change. */
  lemma ToggleStyleSpec(data: map<string, Cell>, ids: seq<string>, p: Prop)
    requires Distinct(ids)
    ensures forall id :: id in ids ==>
              id in ToggleStyle(data, ids, p) &&
              (IsOn(Lookup(ToggleStyle(data, ids, p), id), p) <==> !IsOn(Lookup(data, id), p))
    ensures forall id, q :: id in ids && q != p ==>
              (IsOn(Lookup(ToggleStyle(data, ids, p), id), q) <==> IsOn(Lookup(data, id), q))
    ensures forall id :: id in ids && id in data ==>
              ToggleStyle(data, ids, p)[id].value == data[id].value &&
              ToggleStyle(data, ids, p)[id].expr == data[id].expr
    ensures forall id :: id !in ids ==> Lookup(ToggleStyle(data, ids, p), id) == Lookup(data, id)
  {
    UpdateEachSpec(data, ids, (c: Option<Cell>) => Restyle(c, (st: Style) => SetProp(st, p, Toggle(GetProp(st, p)))));
  }

  /** Toggling twice leaves the key on exactly where it was on before. */
  lemma ToggleTwice(data: map<string, Cell>, ids: seq<string>, p: Prop)
    requires Distinct(ids)
    ensures forall id :: IsOn(Lookup(ToggleStyle(ToggleStyle(data, ids, p), ids, p), id), p) <==>
                         IsOn(Lookup(data, id), p)
  {
    ToggleStyleSpec(data, ids, p);
    ToggleStyleSpec(ToggleStyle(data, ids, p), ids, p);
  }

  /* ---------- cycleAlign ---------- */

  const Aligns: seq<string> := ["left", "center", "right"]

  /** `aligns[(aligns.indexOf(align || 'left') + 1) % 3]`: left goes to center, center to
      right, right to left; an unset or empty alignment counts as left and an unknown one
      (indexOf gives -1) goes to left. */
  function NextAlign(a: Option<string>): (r: Option<string>)
    ensures r.Some? && r.value in Aligns
    ensures a == Some("center") ==> r == Some("right")
    ensures a == Some("right") ==> r == Some("left")
    ensures (a.None? || a == Some("") || a == Some("left")) ==> r == Some("center")
    ensures a.Some? && a.value !in Aligns && a.value != "" ==> r == Some("left")
  {
    var cur := if a.Some? && a.value != "" then a.value else "left";
    var idx := if cur == "left" then 0 else if cur == "center" then 1 else if cur == "right" then 2 else -1;
    Some(Aligns[(idx + 1) % 3])
  }

  /** Three presses bring an alignment back to where it started, an unset one to left. */
  lemma NextAlignCycles(a: Option<string>)
    requires a.None? || a.value == "" || a.value in Aligns
    ensures NextAlign(NextAlign(NextAlign(a))) == Some(if a.Some? && a.value != "" then a.value else "left")
  {
  }

  function CycleAlign(data: map<string, Cell>, ids: seq<string>): (r: map<string, Cell>)
    ensures forall id :: id in ids ==> id in r
    ensures forall id :: id !in ids ==> Lookup(r, id) == Lookup(data, id)
  {
    UpdateEach(data, ids, (c: Option<Cell>) => Restyle(c, (st: Style) => st.(align := NextAlign(st.align))))
  }

  /** cycleAlign advances each selected cell's alignment by one step and leaves every
      other cell and every other style key alone. */
  lemma CycleAlignSpec(data: map<string, Cell>, ids: seq<string>)
    requires Distinct(ids)
    ensures forall id :: id in ids ==>
              var before := Lookup(data, id);
              var after := Lookup(CycleAlign(data, ids), id);
              after.Some? && after.value.style.Some? &&
              after.value.style.value.align ==
                NextAlign(if before.Some? && before.value.style.Some? then before.value.style.value.align else None) &&
              forall q :: IsOn(after, q) <==> IsOn(before, q)
    ensures forall id :: id !in ids ==> Lookup(CycleAlign(data, ids), id) == Lookup(data, id)
  {
    UpdateEachSpec(data, ids, (c: Option<Cell>) => Restyle(c, (st: Style) => st.(align := NextAlign(st.align))));
  }

  /* ---------- applyFill ---------- */

  function ApplyFill(data: map<string, Cell>, ids: seq<string>, color: string): (r: map<string, Cell>)
    ensures forall id :: id in ids ==> id in r
    ensures forall id :: id !in ids ==> Lookup(r, id) == Lookup(data, id)
  {
    UpdateEach(data, ids, (c: Option<Cell>) => Restyle(c, (st: Style) => st.(fill := Some(color))))
  }

  /** applyFill gives every selected cell the colour and keeps its value, formula and other
      style keys; other cells do not change. Filling twice is filling once. */
  lemma ApplyFillSpec(data: map<string, Cell>, ids: seq<string>, color: string)
    requires Distinct(ids)
    ensures forall id :: id in ids ==>
              var after := Lookup(ApplyFill(data, ids, color), id);
              after.Some? && after.value.style.Some? && after.value.style.value.fill == Some(color) &&
              (forall q :: IsOn(after, q) <==> IsOn(Lookup(data, id), q))
    ensures forall id :: id in ids && id in data ==>
              id in ApplyFill(data, ids, color) &&
              ApplyFill(data, ids, color)[id].value == data[id].value &&
              ApplyFill(data, ids, color)[id].expr == data[id].expr
    ensures forall id :: id !in ids ==> Lookup(ApplyFill(data, ids, color), id) == Lookup(data, id)
    ensures ApplyFill(ApplyFill(data, ids, color), ids, color) == ApplyFill(data, ids, color)
  {
    UpdateEachSpec(data, ids, (c: Option<Cell>) => Restyle(c, (st: Style) => st.(fill := Some(color))));
    ApplyFillTwice(data, ids, color);
  }

  lemma ApplyFillTwice(data: map<string, Cell>, ids: seq<string>, color: string)
    requires Distinct(ids)
    ensures ApplyFill(ApplyFill(data, ids, color), ids, color) == ApplyFill(data, ids, color)
  {
    var f := (c: Option<Cell>) => Restyle(c, (st: Style) => st.(fill := Some(color)));
    var once := ApplyFill(data, ids, color);
    UpdateEachSpec(data, ids, f);
    UpdateEachSpec(once, ids, f);
    var twice := ApplyFill(once, ids, color);
    forall id ensures Lookup(twice, id) == Lookup(once, id) { }
    assert forall id :: id in twice <==> Lookup(twice, id).Some?;
    assert twice.Keys == once.Keys;
    forall id | id in once ensures twice[id] == once[id] {
      assert Lookup(twice, id) == Lookup(once, id);
    }
  }

  /* ---------- applyBorderType ---------- */

  /** What applyBorderType leaves in the cells: the borders themselves go on the page
      only, but every selected cell is created when missing and given a style record. */
  function TouchStyles(data: map<string, Cell>, ids: seq<string>): (r: map<string, Cell>)
    ensures forall id :: id in ids ==> id in r
    ensures forall id :: id !in ids ==> Lookup(r, id) == Lookup(data, id)
  {
    UpdateEach(data, ids, (c: Option<Cell>) => Restyle(c, (st: Style) => st))
  }

  /** After a border action every selected cell exists with a style record and keeps its
      value, formula and style keys; a missing cell appears empty; other cells do not
      change. */
  lemma TouchStylesSpec(data: map<string, Cell>, ids: seq<string>)
    requires Distinct(ids)
    ensures forall id :: id in ids ==>
              id in TouchStyles(data, ids) && TouchStyles(data, ids)[id].style.Some? &&
              (forall q :: IsOn(Lookup(TouchStyles(data, ids), id), q) <==> IsOn(Lookup(data, id), q))
    ensures forall id :: id in ids && id in data ==>
              TouchStyles(data, ids)[id].value == data[id].value &&
              TouchStyles(data, ids)[id].expr == data[id].expr &&
              (data[id].style.Some? ==> TouchStyles(data, ids)[id] == data[id])
    ensures forall id :: id in ids && id !in data ==> TouchStyles(data, ids)[id] == EmptyCell.(style := Some(EmptyStyle))
    ensures forall id :: id !in ids ==> Lookup(TouchStyles(data, ids), id) == Lookup(data, id)
  {
    UpdateEachSpec(data, ids, (c: Option<Cell>) => Restyle(c, (st: Style) => st));
  }
}
