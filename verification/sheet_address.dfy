/** Cell addresses of the spreadsheet (apps/day04-sheets/app.js): `colName`, the
    `${colName(c)}${r}` ids the grid gives its cells, and `parseCell`.

    `parseCell` hands back the column as its LETTER string, while the selection, table and
    border code feed that string to Math.min, Math.max and colName as if it were a number.
    The model decodes the letter with `ColumnIndex`, the inverse of `colName`; what the
    letter string actually does in those places is modelled in SheetRegion and
    SheetSelection. */
module SheetAddress {
  import opened Common

  /** colName: the letter of column `c` of a grid of at most 26 columns. */
  function ColName(c: nat): (ch: char)
    requires c < 26
    ensures IsUpper(ch) && ch as int - 'A' as int == c
  {
    ('A' as int + c) as char
  }

  /** The id `${colName(c)}${r}` of the cell in column `c`, row `r`. */
  function CellId(c: nat, r: nat): string
    requires c < 26
  {
    [ColName(c)] + NatToString(r)
  }

  /** The number of upper-case ASCII letters `s` starts with. */
  function UpperRun(s: string): (n: nat)
    ensures n <= |s|
    ensures forall i :: 0 <= i < n ==> IsUpper(s[i])
    ensures n < |s| ==> !IsUpper(s[n])
    decreases |s|
  {
    if |s| > 0 && IsUpper(s[0]) then 1 + UpperRun(s[1..]) else 0
  }

  /** `id` splits at `k` into the two groups of `/^([A-Z]+)(\d+)$/`. */
  predicate CellSplit(id: string, k: nat) {
    0 < k < |id| && AllUpper(id[..k]) && AllDigits(id[k..])
  }

  /** `id` matches `/^([A-Z]+)(\d+)$/`. */
  ghost predicate MatchesCellPattern(id: string) {
    exists k :: CellSplit(id, k)
  }

  /** A split of a matching id is the run of its leading capitals: letters and digits do
      not overlap, so the pattern can match in one way only. */
  lemma SplitIsUpperRun(id: string, k: nat)
    requires CellSplit(id, k)
    ensures UpperRun(id) == k
  {
    assert IsDigit(id[k]) by { assert id[k..][0] == id[k]; }
    assert forall i :: 0 <= i < k ==> IsUpper(id[i]) by {
      forall i | 0 <= i < k ensures IsUpper(id[i]) { assert id[..k][i] == id[i]; }
    }
  }

  /** parseCell: the letters and the row number `parseInt(digits, 10)` of an id, or
      nothing when the id does not match `/^([A-Z]+)(\d+)$/`. */
  function ParseCell(id: string): (r: Option<(string, nat)>)
    ensures r.Some? <==> MatchesCellPattern(id)
    ensures r.Some? ==> CellSplit(id, |r.value.0|) && r.value.0 == id[..|r.value.0|]
    ensures r.Some? ==> r.value.1 == DigitsValue(id[|r.value.0|..])
  {
    var k := UpperRun(id);
    PatternIsUpperRun(id);
    if 0 < k < |id| && AllDigits(id[k..]) then Some((id[..k], DigitsValue(id[k..]))) else None
  }

  lemma PatternIsUpperRun(id: string)
    ensures MatchesCellPattern(id) <==> 0 < UpperRun(id) < |id| && AllDigits(id[UpperRun(id)..])
  {
    var k := UpperRun(id);
    if MatchesCellPattern(id) {
      var j :| CellSplit(id, j);
      SplitIsUpperRun(id, j);
    }
    if 0 < k < |id| && AllDigits(id[k..]) {
      assert CellSplit(id, k);
    }
  }

  /** parseCell reads back the column letter and the row of any grid cell's id. */
  lemma ParseCellId(c: nat, r: nat)
    requires c < 26
    ensures ParseCell(CellId(c, r)) == Some(([ColName(c)], r))
  {
    var id := CellId(c, r);
    assert id[..1] == [ColName(c)] && id[1..] == NatToString(r);
    assert CellSplit(id, 1);
    SplitIsUpperRun(id, 1);
    NatToStringRoundTrip(r);
  }

  /** The inverse of colName: the index of a single column letter. */
  function ColumnIndex(letters: string): (r: Option<nat>)
    ensures r.Some? ==> r.value < 26 && letters == [ColName(r.value)]
    ensures r.None? <==> !(|letters| == 1 && IsUpper(letters[0]))
  {
    if |letters| == 1 && IsUpper(letters[0]) then Some(letters[0] as int - 'A' as int) else None
  }

  /** The column index and row of an id, with the column letter decoded. */
  function Coord(id: string): (r: Option<(nat, nat)>)
    ensures r.Some? ==> r.value.0 < 26
  {
    match ParseCell(id)
    case None => None
    case Some(p) =>
      match ColumnIndex(p.0)
      case None => None
      case Some(c) => Some((c, p.1))
  }

  /** Decoding a grid cell's id gives back its column and row. */
  lemma CoordOfCellId(c: nat, r: nat)
    requires c < 26
    ensures Coord(CellId(c, r)) == Some((c, r))
  {
    ParseCellId(c, r);
  }

  /** Different cells have different ids. */
  lemma CellIdInjective(c1: nat, r1: nat, c2: nat, r2: nat)
    requires c1 < 26 && c2 < 26
    requires CellId(c1, r1) == CellId(c2, r2)
    ensures c1 == c2 && r1 == r2
  {
    CoordOfCellId(c1, r1);
    CoordOfCellId(c2, r2);
  }

  /** An id that decodes is the id of the cell it decodes to exactly when its row has no
      leading zero: `A07` reads as column 0, row 7, but that cell is called `A7`. */
  lemma CoordInverse(id: string)
    requires Coord(id).Some?
    ensures id == CellId(Coord(id).value.0, Coord(id).value.1) <==> |id| == 2 || id[1] != '0'
  {
    var c := Coord(id).value.0;
    var r := Coord(id).value.1;
    var p := ParseCell(id).value;
    assert |p.0| == 1;
    var digits := id[1..];
    assert r == DigitsValue(digits);
    if |id| == 2 || id[1] != '0' {
      assert digits[0] == id[1];
      DigitsRoundTrip(digits);
      assert id == [id[0]] + digits;
    } else {
      assert CellId(c, r)[1..] == NatToString(r);
    }
  }
}
