/** Formulas of the spreadsheet (apps/day04-sheets/app.js): the reference substitution of
    evaluateExpr, commitEdit on a sheet's cells, and the formula bar (updateFormula and its
    Enter key). The arithmetic `eval` after substitution is a parameter: a partial function
    from text to a value, whose failure the source turns into `#ERR`. */
module SheetFormula {
  import opened Common
  import opened SheetAddress
  import opened SheetModel

  /* ---------- tokens of /([A-Z]+\d+)/g ---------- */

  /** A piece of a formula: a character left alone, or a cell reference. */
  datatype Piece = Lit(c: char) | Ref(id: string)

  /** The number of decimal digits `s` starts with. */
  function DigitRun(s: string): (n: nat)
    ensures n <= |s|
    ensures forall i :: 0 <= i < n ==> IsDigit(s[i])
    ensures n < |s| ==> !IsDigit(s[n])
    decreases |s|
  {
    if |s| > 0 && IsDigit(s[0]) then 1 + DigitRun(s[1..]) else 0
  }

  /** A match of `[A-Z]+\d+` starts at the front of `s`: capitals followed by a digit.
      Giving back capitals cannot help a failed attempt, since a capital never matches
      `\d`. */
  predicate StartsToken(s: string) {
    var u := UpperRun(s);
    0 < u < |s| && IsDigit(s[u])
  }

  /** The length of the token at the front of `s`: all its capitals, all its digits. */
  function TokenLength(s: string): (n: nat)
    requires StartsToken(s)
    ensures UpperRun(s) < n <= |s|
  {
    var u := UpperRun(s);
    u + DigitRun(s[u..])
  }

  /** The pieces String.prototype.replace visits: each leftmost, longest token, and the
      characters between them. */
  function Tokenize(s: string): (ps: seq<Piece>)
    ensures |ps| <= |s|
    decreases |s|
  {
    if |s| == 0 then []
    else if StartsToken(s) then
      var n := TokenLength(s);
      [Ref(s[..n])] + Tokenize(s[n..])
    else [Lit(s[0])] + Tokenize(s[1..])
  }

  function PieceText(p: Piece): string {
    match p
    case Lit(c) => [c]
    case Ref(id) => id
  }

  function Join(ps: seq<Piece>): string
    decreases |ps|
  {
    if |ps| == 0 then "" else PieceText(ps[0]) + Join(ps[1..])
  }

  /** What makes a list of pieces the tokenization the regular expression produces: a
      literal character stands where no token starts, a reference is a whole token, and
      the text after a reference does not go on with a digit. */
  ghost predicate LeftmostLongest(ps: seq<Piece>)
    decreases |ps|
  {
    |ps| == 0 ||
    ((match ps[0]
      case Lit(c) => !StartsToken(Join(ps))
      case Ref(id) =>
        MatchesCellPattern(id) && !(|Join(ps[1..])| > 0 && IsDigit(Join(ps[1..])[0])))
     && LeftmostLongest(ps[1..]))
  }

  lemma TokenIsCellPattern(s: string)
    requires StartsToken(s)
    ensures MatchesCellPattern(s[..TokenLength(s)])
    ensures UpperRun(s[..TokenLength(s)]) == UpperRun(s)
  {
    var u := UpperRun(s);
    var n := TokenLength(s);
    var t := s[..n];
    assert t[u..] == s[u..][..n - u];
    assert CellSplit(t, u);
    SplitIsUpperRun(t, u);
  }

  /** The pieces put back together are the formula. */
  lemma {:induction false} TokenizeJoin(s: string)
    ensures Join(Tokenize(s)) == s
    decreases |s|
  {
    if |s| > 0 {
      if StartsToken(s) {
        var n := TokenLength(s);
        assert Tokenize(s) == [Ref(s[..n])] + Tokenize(s[n..]);
        JoinFront(Ref(s[..n]), Tokenize(s[n..]));
        TokenizeJoin(s[n..]);
        assert s[..n] + s[n..] == s;
      } else {
        assert Tokenize(s) == [Lit(s[0])] + Tokenize(s[1..]);
        JoinFront(Lit(s[0]), Tokenize(s[1..]));
        TokenizeJoin(s[1..]);
        assert [s[0]] + s[1..] == s;
      }
    }
  }

  lemma JoinFront(p: Piece, rest: seq<Piece>)
    ensures Join([p] + rest) == PieceText(p) + Join(rest)
  {
    assert ([p] + rest)[1..] == rest;
  }

  /** The pieces are the leftmost, longest tokens and the text between them. */
  lemma {:induction false} TokenizeLeftmostLongest(s: string)
    ensures LeftmostLongest(Tokenize(s))
    decreases |s|
  {
    if |s| > 0 {
      var ps := Tokenize(s);
      if StartsToken(s) {
        var n := TokenLength(s);
        TokenizeLeftmostLongest(s[n..]);
        FrontTokenIsWhole(s);
        assert ps[1..] == Tokenize(s[n..]);
      } else {
        TokenizeLeftmostLongest(s[1..]);
        TokenizeJoin(s);
        assert ps[1..] == Tokenize(s[1..]);
      }
    }
  }

  /** The token at the front matches the cell pattern, and what follows it does not go on
      with a digit. */
  lemma FrontTokenIsWhole(s: string)
    requires StartsToken(s)
    ensures var n := TokenLength(s);
            MatchesCellPattern(s[..n]) &&
            !(|Join(Tokenize(s[n..]))| > 0 && IsDigit(Join(Tokenize(s[n..]))[0]))
  {
    var n := TokenLength(s);
    TokenIsCellPattern(s);
    TokenizeJoin(s[n..]);
    var u := UpperRun(s);
    if n < |s| {
      assert s[n..][0] == s[u..][n - u];
    }
  }

  lemma FirstPieceChar(ps: seq<Piece>)
    requires |ps| > 0 && LeftmostLongest(ps)
    ensures |Join(ps)| > 0 && Join(ps)[0] == PieceText(ps[0])[0]
  {
    if ps[0].Ref? {
      var k: nat :| CellSplit(ps[0].id, k);
    }
    assert Join(ps) == PieceText(ps[0]) + Join(ps[1..]);
  }

  /** No other list of pieces spells the formula in the leftmost-longest way: the
      tokenization is unique. */
  lemma {:induction false} LeftmostLongestUnique(ps: seq<Piece>)
    requires LeftmostLongest(ps)
    ensures Tokenize(Join(ps)) == ps
    decreases |ps|
  {
    if |ps| > 0 {
      LeftmostLongestUnique(ps[1..]);
      FirstPieceTokenizes(ps);
      assert ps == [ps[0]] + ps[1..];
    }
  }

  /** The first piece of a leftmost-longest list is the first piece the tokenizer cuts. */
  lemma FirstPieceTokenizes(ps: seq<Piece>)
    requires |ps| > 0 && LeftmostLongest(ps)
    ensures Tokenize(Join(ps)) == [ps[0]] + Tokenize(Join(ps[1..]))
  {
    var s := Join(ps);
    var rest := Join(ps[1..]);
    assert s == PieceText(ps[0]) + rest;
    match ps[0]
    case Lit(c) =>
      assert s[1..] == rest;
    case Ref(id) =>
      RefStartsToken(id, rest);
      assert s[..|id|] == id && s[|id|..] == rest;
  }

  /** A reference followed by text that does not go on with a digit is the token the
      pattern matches at the front. */
  lemma RefStartsToken(id: string, rest: string)
    requires MatchesCellPattern(id)
    requires !(|rest| > 0 && IsDigit(rest[0]))
    ensures StartsToken(id + rest) && TokenLength(id + rest) == |id|
  {
    var s := id + rest;
    var k: nat :| CellSplit(id, k);
    assert s[..|id|] == id;
    UpperRunPrefix(s, id, k);
    assert s[k..] == id[k..] + rest;
    DigitRunPrefix(s[k..], id[k..], rest);
    assert IsDigit(id[k..][0]);
  }

  lemma UpperRunPrefix(s: string, id: string, k: nat)
    requires CellSplit(id, k) && |id| <= |s| && s[..|id|] == id
    ensures UpperRun(s) == k
  {
    assert forall i :: 0 <= i < k ==> IsUpper(id[..k][i]);
    assert IsDigit(id[k..][0]);
    assert forall i :: 0 <= i < |id| ==> s[i] == s[..|id|][i];
  }

  lemma DigitRunPrefix(t: string, d: string, rest: string)
    requires |d| > 0 && AllDigits(d)
    requires t == d + rest
    requires !(|rest| > 0 && IsDigit(rest[0]))
    ensures DigitRun(t) == |d|
  {
    assert forall i :: 0 <= i < |d| ==> t[i] == d[i];
    if |rest| > 0 {
      assert t[|d|] == rest[0];
    }
  }

  /* ---------- substitution and evaluation ---------- */

  /** What a reference is replaced with: the referenced cell's value when the cell exists
      and its value is neither null nor undefined, and 0 otherwise, as text. */
  function RefText(data: map<string, Cell>, id: string): string
  {
    if id in data && data[id].value != Null && data[id].value != Undefined then ToText(data[id].value)
    else "0"
  }

  function Render(ps: seq<Piece>, data: map<string, Cell>): string
    decreases |ps|
  {
    if |ps| == 0 then ""
    else
      (match ps[0]
       case Lit(c) => [c]
       case Ref(id) => RefText(data, id)) + Render(ps[1..], data)
  }

  /** The text handed to `eval`: every reference token replaced by its cell's value. */
  function Substitute(expr: string, data: map<string, Cell>): (r: string)
    ensures forall ps :: LeftmostLongest(ps) && Join(ps) == expr ==> r == Render(ps, data)
  {
    TokenizationUnique(expr);
    Render(Tokenize(expr), data)
  }

  /** A formula has one leftmost-longest tokenization, and Tokenize finds it. */
  lemma TokenizationUnique(expr: string)
    ensures forall ps :: LeftmostLongest(ps) && Join(ps) == expr ==> ps == Tokenize(expr)
  {
    forall ps | LeftmostLongest(ps) && Join(ps) == expr
      ensures ps == Tokenize(expr)
    {
      LeftmostLongestUnique(ps);
    }
  }

  /** Substitution replaces exactly the leftmost, longest tokens: whichever way a formula
      is cut into literal characters and references by that rule, the text handed to the
      evaluator is those pieces with each reference replaced by its cell's text. */
  lemma SubstituteReplacesTokens(expr: string, ps: seq<Piece>, data: map<string, Cell>)
    requires LeftmostLongest(ps) && Join(ps) == expr
    ensures Substitute(expr, data) == Render(ps, data)
  {
    LeftmostLongestUnique(ps);
  }

  /** Rendering with each reference replaced by its own name gives the text back: the
      substitution changes nothing but the references. */
  lemma {:induction false} RenderOwnNames(ps: seq<Piece>, data: map<string, Cell>)
    requires forall i :: 0 <= i < |ps| && ps[i].Ref? ==> RefText(data, ps[i].id) == ps[i].id
    ensures Render(ps, data) == Join(ps)
    decreases |ps|
  {
    if |ps| > 0 {
      RenderOwnNames(ps[1..], data);
    }
  }

  /** A formula without a capital letter contains no reference and is evaluated as
      written. */
  lemma {:induction false} SubstituteWithoutCapitals(expr: string, data: map<string, Cell>)
    requires forall i :: 0 <= i < |expr| ==> !IsUpper(expr[i])
    ensures Substitute(expr, data) == expr
    decreases |expr|
  {
    if |expr| > 0 {
      assert !StartsToken(expr);
      SubstituteWithoutCapitals(expr[1..], data);
    }
  }

  /** A reference to a cell with a value is replaced by that value's text, and one to an
      empty or missing cell by 0. */
  lemma SubstituteOneRef(c: nat, r: nat, data: map<string, Cell>)
    requires c < 26
    ensures Substitute(CellId(c, r), data) ==
              (var id := CellId(c, r);
               if id in data && data[id].value != Null && data[id].value != Undefined
               then ToText(data[id].value) else "0")
  {
    var id := CellId(c, r);
    ParseCellId(c, r);
    RefStartsToken(id, "");
    assert id + "" == id;
    assert id[|id|..] == "";
    assert Tokenize(id) == [Ref(id)] + Tokenize("");
    assert Render([Ref(id)], data) == RefText(data, id) + Render([], data);
  }

  /** evaluateExpr: the evaluator's result on the substituted text, or `#ERR` when it
      fails. */
  function Evaluate(expr: string, data: map<string, Cell>, eval: string -> Option<Value>): (v: Value)
    ensures eval(Substitute(expr, data)).None? ==> v == Text("#ERR")
    ensures eval(Substitute(expr, data)).Some? ==> v == eval(Substitute(expr, data)).value
  {
    match eval(Substitute(expr, data))
    case None => Text("#ERR")
    case Some(v) => v
  }

  /* ---------- commitEdit on a sheet's cells ---------- */

  /** The record commitEdit stores: the evaluated value and the formula for a formula, the
      raw text otherwise; no style. */
  function Committed(raw: string, isExpr: bool, data: map<string, Cell>, eval: string -> Option<Value>): Cell
  {
    if isExpr then Cell(Evaluate(raw, data, eval), Some(raw), None) else Cell(Text(raw), None, None)
  }

  /** commitEdit on the cells of the active sheet: empty text deletes the cell, any other
      text replaces its whole record, and no other cell changes. A formula is evaluated
      against the cells as they were before the commit. */
  function CommitData(data: map<string, Cell>, id: string, raw: string, isExpr: bool,
                      eval: string -> Option<Value>): (d: map<string, Cell>)
    ensures raw == "" ==> id !in d
    ensures raw != "" ==> id in d && d[id].style.None? && (d[id].expr.Some? <==> isExpr)
    ensures raw != "" && !isExpr ==> d[id].value == Text(raw)
    ensures raw != "" && isExpr ==> d[id].expr == Some(raw) && d[id].value == Evaluate(raw, data, eval)
    ensures forall k :: k != id ==> (k in d <==> k in data) && (k in d ==> d[k] == data[k])
  {
    if raw == "" then data - {id} else data[id := Committed(raw, isExpr, data, eval)]
  }

  /** Committing empty text after any commit leaves the cell as if it had never been
      written. */
  lemma ClearAfterCommit(data: map<string, Cell>, id: string, raw: string, isExpr: bool,
                         eval: string -> Option<Value>)
    ensures CommitData(CommitData(data, id, raw, isExpr, eval), id, "", false, eval) == data - {id}
  {
  }

  /* ---------- the formula bar ---------- */

  /** updateFormula: the text shown in the formula bar, always starting with `=`; empty
      when no cell has the focus. `None` when the shown value is not a string, where
      `txt.startsWith` throws and the bar keeps its old text. */
  function FormulaText(data: map<string, Cell>, focused: Option<string>): (r: Option<string>)
    ensures focused.None? ==> r == Some("")
    ensures focused.Some? && r.Some? ==> StartsWith(r.value, "=")
    ensures focused.Some? && focused.value !in data ==> r == Some("=")
  {
    assert "=" + "" == "=";
    if focused.None? then Some("")
    else
      match Shown(Lookup(data, focused.value))
      case Text(t) => Some(if StartsWith(t, "=") then t else "=" + t)
      case _ => None
  }

  /** The arguments Enter in the formula bar passes to commitEdit, as written: the text
      without its first character, whatever that character is, and whether it was `=`. */
  function FormulaEnterAsWritten(input: string): (r: (string, bool))
    ensures r.1 <==> StartsWith(input, "=")
    ensures |input| > 0 ==> r.0 == input[1..]
  {
    (if |input| == 0 then "" else input[1..], StartsWith(input, "="))
  }

  /** Text typed over the whole formula bar loses its first character: `42` is committed
      as the text `2`. */
  lemma FormulaEnterDropsFirstChar()
    ensures FormulaEnterAsWritten("42") == ("2", false)
  {
    assert "42"[1..] == "2";
    assert "42"[0] == '4';
  }

  /** Enter in the formula bar as evidently intended: a leading `=` marks a formula and is
      removed; other text is committed whole. */
  function FormulaEnter(input: string): (r: (string, bool))
    ensures r.1 <==> StartsWith(input, "=")
    ensures r.1 ==> "=" + r.0 == input
    ensures !r.1 ==> r.0 == input
  {
    if StartsWith(input, "=") then (input[1..], true) else (input, false)
  }

  /** The two agree whenever the bar holds what updateFormula put there. */
  lemma FormulaEnterAgreesOnShownText(data: map<string, Cell>, id: string)
    requires FormulaText(data, Some(id)).Some?
    ensures FormulaEnterAsWritten(FormulaText(data, Some(id)).value) ==
            FormulaEnter(FormulaText(data, Some(id)).value)
  {
  }

  /** Pressing Enter on the formula bar without editing it turns what the cell shows into
      the cell's formula. */
  lemma {:induction false} FormulaBarRoundTrip(data: map<string, Cell>, id: string, eval: string -> Option<Value>)
    requires FormulaText(data, Some(id)).Some?
    requires FormulaText(data, Some(id)) != Some("=")
    ensures var (raw, isExpr) := FormulaEnter(FormulaText(data, Some(id)).value);
            var d := CommitData(data, id, raw, isExpr, eval);
            id in d && d[id].expr.Some? && "=" + d[id].expr.value == FormulaText(data, Some(id)).value
  {
    var t := FormulaText(data, Some(id)).value;
    assert t[..1] == "=";
    assert t == t[..1] + t[1..];
    assert "=" + "" == "=";
  }
}
