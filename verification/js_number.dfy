/** The little of JavaScript's number semantics the spreadsheet's column arithmetic runs
    into: a column LETTER passed where a number is expected becomes NaN, and NaN makes
    every comparison false and every Math.min or Math.max NaN. */
module JsNumbers {
  import opened Common

  datatype JsNum = Finite(v: int) | NaN

  /** Number(letters) for a non-empty run of capitals: such text is neither a decimal
      literal nor `Infinity` (which has lower-case letters), so it converts to NaN. */
  function LettersToNumber(letters: string): JsNum
    requires |letters| > 0 && AllUpper(letters)
  {
    NaN
  }

  /** Math.min(a, b). */
  function JsMin(a: JsNum, b: JsNum): (r: JsNum)
    ensures r.NaN? <==> a.NaN? || b.NaN?
    ensures r.Finite? ==> r.v <= a.v && r.v <= b.v && (r.v == a.v || r.v == b.v)
  {
    if a.NaN? || b.NaN? then NaN else Finite(Min(a.v, b.v))
  }

  /** Math.max(a, b). */
  function JsMax(a: JsNum, b: JsNum): (r: JsNum)
    ensures r.NaN? <==> a.NaN? || b.NaN?
    ensures r.Finite? ==> r.v >= a.v && r.v >= b.v && (r.v == a.v || r.v == b.v)
  {
    if a.NaN? || b.NaN? then NaN else Finite(Max(a.v, b.v))
  }

  /** Math.min(...xs) for a non-empty list: NaN exactly when some argument is NaN,
      otherwise the smallest argument. */
  function JsMinAll(xs: seq<JsNum>): (r: JsNum)
    requires |xs| > 0
    ensures r.NaN? <==> exists i :: 0 <= i < |xs| && xs[i].NaN?
    ensures r.Finite? ==> forall i :: 0 <= i < |xs| ==> xs[i].Finite? && r.v <= xs[i].v
    ensures r.Finite? ==> exists i :: 0 <= i < |xs| && xs[i] == r
    decreases |xs|
  {
    if |xs| == 1 then xs[0] else JsMin(xs[0], JsMinAll(xs[1..]))
  }

  /** Math.max(...xs) for a non-empty list: NaN exactly when some argument is NaN,
      otherwise the largest argument. */
  function JsMaxAll(xs: seq<JsNum>): (r: JsNum)
    requires |xs| > 0
    ensures r.NaN? <==> exists i :: 0 <= i < |xs| && xs[i].NaN?
    ensures r.Finite? ==> forall i :: 0 <= i < |xs| ==> xs[i].Finite? && r.v >= xs[i].v
    ensures r.Finite? ==> exists i :: 0 <= i < |xs| && xs[i] == r
    decreases |xs|
  {
    if |xs| == 1 then xs[0] else JsMax(xs[0], JsMaxAll(xs[1..]))
  }

  /** `a <= b`: false whenever either side is NaN. */
  predicate JsLe(a: JsNum, b: JsNum) {
    a.Finite? && b.Finite? && a.v <= b.v
  }
}
