/** The CSV export of the spreadsheet toolbar (apps/day04-sheets/app.js, the exportCSV
    action): one record per row 1..ROWS, one field per column 0..COLS-1, each field the
    text the grid shows for the cell inside double quotes with every quote doubled, the
    fields joined by commas and every record ended by a line feed.

    The partner of the export is a reader for the quoted-field form of section 2 of
    RFC 4180 (rules 5 to 7): reading the exported text gives back the grid of shown
    texts. */
module SheetCsv {
  import opened Common
  import opened SheetAddress
  import opened SheetModel
  import opened Seqs

  /* ---------- writing ---------- */

  /** `s.replace(/"/g, '""')`. */
  function Escape(s: string): (e: string)
    ensures |e| >= |s|
  {
    if |s| == 0 then ""
    else (if s[0] == '"' then "\"\"" else [s[0]]) + Escape(s[1..])
  }

  function Quote(s: string): (q: string)
    ensures |q| >= |s| + 2 && q[0] == '"' && q[|q| - 1] == '"'
  {
    "\"" + Escape(s) + "\""
  }

  /** `row.join(',')` over the quoted fields. */
  function JoinFields(fields: seq<string>): string
    decreases |fields|
  {
    if |fields| == 0 then ""
    else if |fields| == 1 then Quote(fields[0])
    else Quote(fields[0]) + "," + JoinFields(fields[1..])
  }

  function RecordText(fields: seq<string>): string {
    JoinFields(fields) + "\n"
  }

  function CsvText(records: seq<seq<string>>): (t: string)
    ensures |records| == 0 <==> |t| == 0
    ensures |records| > 0 ==> t[|t| - 1] == '\n'
    decreases |records|
  {
    if |records| == 0 then "" else RecordText(records[0]) + CsvText(records[1..])
  }

  /** The text the grid shows for each cell, row by row: `String(cell.expr || cell.value || '')`. */
  function Texts(sheet: Sheet): (t: seq<seq<string>>)
    requires sheet.cols <= 26
    ensures |t| == if sheet.rows <= 0 then 0 else sheet.rows
    ensures forall i :: 0 <= i < |t| ==> |t[i]| == if sheet.cols <= 0 then 0 else sheet.cols
    ensures forall i, c :: 0 <= i < |t| && 0 <= c < |t[i]| ==>
              t[i][c] == ToText(Shown(Lookup(sheet.data, CellId(c, i + 1))))
  {
    var rows := if sheet.rows <= 0 then 0 else sheet.rows;
    var cols := if sheet.cols <= 0 then 0 else sheet.cols;
    seq(rows, i requires 0 <= i < rows =>
      seq(cols, c requires 0 <= c < cols => ToText(Shown(Lookup(sheet.data, CellId(c, i + 1))))))
  }

  /** The exported file. With at least one column, reading it back gives the shown texts
      cell for cell. */
  function ExportCsv(sheet: Sheet): (csv: string)
    requires sheet.cols <= 26
    ensures sheet.rows <= 0 ==> csv == ""
    ensures sheet.cols >= 1 ==> ReadRecords(csv) == Some(Texts(sheet))
  {
    ExportReadsBack(sheet);
    CsvText(Texts(sheet))
  }

  lemma ExportReadsBack(sheet: Sheet)
    requires sheet.cols <= 26
    ensures sheet.cols >= 1 ==> ReadRecords(CsvText(Texts(sheet))) == Some(Texts(sheet))
  {
    if sheet.cols >= 1 {
      ReadCsvText(Texts(sheet));
    }
  }

  /* ---------- reading ---------- */

  /** Reads the inside of a quoted field up to its closing quote, turning each doubled
      quote into one; gives the field and what follows the closing quote. */
  function ReadBody(s: string): (r: Option<(string, string)>)
    ensures r.Some? ==> |r.value.1| < |s|
    decreases |s|
  {
    if |s| == 0 then None
    else if s[0] == '"' then
      if |s| > 1 && s[1] == '"' then
        match ReadBody(s[2..])
        case None => None
        case Some(p) => Some(("\"" + p.0, p.1))
      else Some(("", s[1..]))
    else
      match ReadBody(s[1..])
      case None => None
      case Some(p) => Some(([s[0]] + p.0, p.1))
  }

  /** Reads one record of quoted fields ended by a line feed; gives the fields and the
      rest of the text. */
  function ReadRecord(s: string): (r: Option<(seq<string>, string)>)
    ensures r.Some? ==> |r.value.1| < |s|
    decreases |s|
  {
    if |s| == 0 || s[0] != '"' then None
    else
      match ReadBody(s[1..])
      case None => None
      case Some(p) =>
        var rest := p.1;
        if |rest| > 0 && rest[0] == ',' then
          match ReadRecord(rest[1..])
          case None => None
          case Some(q) => Some(([p.0] + q.0, q.1))
        else if |rest| > 0 && rest[0] == '\n' then Some(([p.0], rest[1..]))
        else None
  }

  function ReadRecords(s: string): Option<seq<seq<string>>>
    decreases |s|
  {
    if |s| == 0 then Some([])
    else
      match ReadRecord(s)
      case None => None
      case Some(p) =>
        match ReadRecords(p.1)
        case None => None
        case Some(rs) => Some([p.0] + rs)
  }

  /* ---------- the round trip ---------- */

  /** A field's escaped text followed by the closing quote reads back as the field, as
      long as what comes next is not itself a quote. */
  lemma {:induction false} ReadEscaped(t: string, rest: string)
    requires |rest| == 0 || rest[0] != '"'
    ensures ReadBody(Escape(t) + "\"" + rest) == Some((t, rest))
    decreases |t|
  {
    var s := Escape(t) + "\"" + rest;
    if |t| == 0 {
      assert s == "\"" + rest;
      assert s[1..] == rest;
    } else {
      ReadEscaped(t[1..], rest);
      var tail := Escape(t[1..]) + "\"" + rest;
      assert t == [t[0]] + t[1..];
      if t[0] == '"' {
        assert s == "\"\"" + tail;
        assert s[2..] == tail;
        assert "\"" + t[1..] == t;
      } else {
        assert s == [t[0]] + tail;
        assert s[1..] == tail;
      }
    }
  }

  /** One exported record reads back as its fields. */
  lemma {:induction false} ReadRecordText(fields: seq<string>, rest: string)
    requires |fields| >= 1
    ensures ReadRecord(RecordText(fields) + rest) == Some((fields, rest))
    decreases |fields|
  {
    var f := fields[0];
    var after := if |fields| == 1 then "\n" + rest else "," + (RecordText(fields[1..]) + rest);
    RecordTextShape(fields, rest);
    ReadQuoted(f, after);
    if |fields| == 1 {
      assert after[1..] == rest;
      assert fields == [f];
    } else {
      ReadRecordText(fields[1..], rest);
      assert after[1..] == RecordText(fields[1..]) + rest;
      assert [f] + fields[1..] == fields;
    }
  }

  /** An exported record is its first quoted field followed by a line feed or by a comma
      and the remaining fields. */
  lemma RecordTextShape(fields: seq<string>, rest: string)
    requires |fields| >= 1
    ensures RecordText(fields) + rest ==
            "\"" + (Escape(fields[0]) + "\"" +
                    (if |fields| == 1 then "\n" + rest else "," + (RecordText(fields[1..]) + rest)))
  {
    var e := Escape(fields[0]);
    var after := if |fields| == 1 then "\n" + rest else "," + (RecordText(fields[1..]) + rest);
    var q := Quote(fields[0]);
    if |fields| == 1 {
      AppendAssoc(q, "\n", rest);
    } else {
      var tail := RecordText(fields[1..]);
      AppendAssoc(q + ",", JoinFields(fields[1..]), "\n");
      AppendAssoc(q + ",", tail, rest);
      AppendAssoc(q, ",", tail + rest);
    }
    assert RecordText(fields) + rest == q + after;
    AppendAssoc("\"" + e, "\"", after);
    AppendAssoc("\"", e, "\"" + after);
    AppendAssoc(e, "\"", after);
  }

  /** A quoted field followed by something other than a quote reads back as the field. */
  lemma ReadQuoted(f: string, after: string)
    requires |after| > 0 && after[0] != '"'
    ensures var s := "\"" + (Escape(f) + "\"" + after);
            |s| > 0 && s[0] == '"' && ReadBody(s[1..]) == Some((f, after))
  {
    var s := "\"" + (Escape(f) + "\"" + after);
    ReadEscaped(f, after);
    assert s[1..] == Escape(f) + "\"" + after;
  }

  /** A whole export reads back as its records, provided no record is empty. */
  lemma {:induction false} ReadCsvText(records: seq<seq<string>>)
    requires forall i :: 0 <= i < |records| ==> |records[i]| >= 1
    ensures ReadRecords(CsvText(records)) == Some(records)
    decreases |records|
  {
    if |records| > 0 {
      var tail := records[1..];
      ReadCsvText(tail);
      ReadRecordText(records[0], CsvText(tail));
      assert |CsvText(records)| > 0;
      assert [records[0]] + tail == records;
    }
  }

  /** Quoting is injective: different texts never export as the same field. */
  lemma QuoteInjective(a: string, b: string)
    ensures Quote(a) == Quote(b) ==> a == b
  {
    if Quote(a) == Quote(b) {
      ReadEscaped(a, "");
      ReadEscaped(b, "");
      assert Escape(a) + "\"" + "" == Quote(a)[1..];
      assert Escape(b) + "\"" + "" == Quote(b)[1..];
    }
  }
}
