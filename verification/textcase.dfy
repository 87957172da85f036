/** The text-case converter (apps/day01-textcase/app.js): the seven transforms behind its
    buttons, on ASCII case mapping. Three of them call methods that do not exist
    (`ToUpperCase`, and `caches` in place of the matched character); each such call throws
    a TypeError, which `Outcome.Threw` records. `lower` hands back the method
    `toLowerCase` itself instead of calling it. */
module TextCase {
  import opened Common
  import Seqs

  /** What a button leaves behind: the text written to the output box, or an exception. */
  datatype Outcome = Text(s: string) | Threw(error: string)

  const TypeError := "TypeError: not a function"

  /** What the output box shows when handed the function object `toLowerCase`. */
  const NativeToLowerCaseText := "function toLowerCase() { [native code] }"

  /* ---------- snake and kebab case ---------- */

  /** The suffix of `s` after its leading whitespace. */
  function DropSpaces(s: string): (r: string)
    ensures |r| <= |s| && r == s[|s| - |r|..]
    ensures |r| > 0 ==> !IsSpace(r[0])
    ensures forall i :: 0 <= i < |s| - |r| ==> IsSpace(s[i])
  {
    if |s| > 0 && IsSpace(s[0]) then DropSpaces(s[1..]) else s
  }

  /** `s.replace(/\s+/g, sep)`: every maximal run of whitespace becomes one `sep`. */
  function CollapseSpaces(s: string, sep: char): (r: string)
    ensures |r| <= |s|
    ensures !IsSpace(sep) ==> NoSpace(r)
    ensures forall i :: 0 <= i < |r| ==> r[i] == sep || r[i] in s
    decreases |s|
  {
    if |s| == 0 then ""
    else if IsSpace(s[0]) then [sep] + CollapseSpaces(DropSpaces(s[1..]), sep)
    else [s[0]] + CollapseSpaces(s[1..], sep)
  }

  /** toSnake: lower-case, then each whitespace run becomes `_`. */
  function ToSnake(s: string): (r: string)
    ensures NoSpace(r) && |r| <= |s|
    ensures forall i :: 0 <= i < |r| ==> r[i] == '_' || r[i] in Lower(s)
    ensures Seqs.Filter(r, c => Kept('_', c)) == Seqs.Filter(Lower(s), c => Kept('_', c))
  {
    CollapseKeepsText(Lower(s), '_');
    CollapseSpaces(Lower(s), '_')
  }

  /** toKebab: lower-case, then each whitespace run becomes `-`. */
  function ToKebab(s: string): (r: string)
    ensures NoSpace(r) && |r| <= |s|
    ensures forall i :: 0 <= i < |r| ==> r[i] == '-' || r[i] in Lower(s)
    ensures Seqs.Filter(r, c => Kept('-', c)) == Seqs.Filter(Lower(s), c => Kept('-', c))
  {
    CollapseKeepsText(Lower(s), '-');
    CollapseSpaces(Lower(s), '-')
  }

  /** The characters a collapse never touches: neither whitespace nor the separator. */
  predicate Kept(sep: char, c: char) { !IsSpace(c) && c != sep }

  lemma {:induction false} DropSpacesKeeps(s: string, sep: char)
    ensures Seqs.Filter(DropSpaces(s), c => Kept(sep, c)) == Seqs.Filter(s, c => Kept(sep, c))
    decreases |s|
  {
    if |s| > 0 && IsSpace(s[0]) {
      DropSpacesKeeps(s[1..], sep);
    }
  }

  /** The collapse changes only whitespace: every other character (separator excepted)
      survives, in order, and nothing is added. */
  lemma {:induction false} CollapseKeepsText(s: string, sep: char)
    ensures Seqs.Filter(CollapseSpaces(s, sep), c => Kept(sep, c)) == Seqs.Filter(s, c => Kept(sep, c))
    decreases |s|
  {
    var keep := c => Kept(sep, c);
    if |s| > 0 {
      var r := CollapseSpaces(s, sep);
      if IsSpace(s[0]) {
        var rest := DropSpaces(s[1..]);
        CollapseKeepsText(rest, sep);
        DropSpacesKeeps(s[1..], sep);
        assert r[1..] == CollapseSpaces(rest, sep);
      } else {
        CollapseKeepsText(s[1..], sep);
        assert r[1..] == CollapseSpaces(s[1..], sep);
      }
    }
  }

  /** Text without whitespace comes through the collapse unchanged. */
  lemma {:induction false} CollapseWithoutSpaces(s: string, sep: char)
    requires NoSpace(s)
    ensures CollapseSpaces(s, sep) == s
    decreases |s|
  {
    if |s| > 0 {
      CollapseWithoutSpaces(s[1..], sep);
    }
  }

  predicate AllSpace(w: string) { forall i :: 0 <= i < |w| ==> IsSpace(w[i]) }

  /** A whitespace run in front of text that does not start with whitespace is dropped
      whole. */
  lemma {:induction false} DropSpacesRun(w: string, y: string)
    requires AllSpace(w) && (|y| == 0 || !IsSpace(y[0]))
    ensures DropSpaces(w + y) == y
    decreases |w|
  {
    if |w| > 0 {
      assert (w + y)[1..] == w[1..] + y;
      DropSpacesRun(w[1..], y);
    } else {
      assert w + y == y;
    }
  }

  /** The first maximal whitespace run becomes exactly one separator, the text before it
      is kept, and the collapse goes on after it. With CollapseWithoutSpaces this fixes
      the result on every input. */
  lemma {:induction false} CollapseRun(x: string, w: string, y: string, sep: char)
    requires NoSpace(x) && |w| > 0 && AllSpace(w) && (|y| == 0 || !IsSpace(y[0]))
    ensures CollapseSpaces(x + w + y, sep) == x + [sep] + CollapseSpaces(y, sep)
    decreases |x|
  {
    if |x| == 0 {
      assert x + w + y == w + y;
      assert (w + y)[1..] == w[1..] + y;
      DropSpacesRun(w[1..], y);
    } else {
      assert (x + w + y)[1..] == x[1..] + w + y;
      CollapseRun(x[1..], w, y, sep);
    }
  }

  /** Lower-casing keeps whitespace where it is: spaces are not capitals. */
  lemma LowerRunParts(x: string, w: string, y: string)
    requires NoSpace(x) && AllSpace(w) && (|y| == 0 || !IsSpace(y[0]))
    ensures Lower(x + w + y) == Lower(x) + w + Lower(y)
    ensures NoSpace(Lower(x)) && (|Lower(y)| == 0 || !IsSpace(Lower(y)[0]))
  {
    LowerConcat(x + w, y);
    LowerConcat(x, w);
    assert Lower(w) == w;
  }

  /** toSnake turns the first whitespace run into one `_` and goes on after it. */
  lemma SnakeRun(x: string, w: string, y: string)
    requires NoSpace(x) && |w| > 0 && AllSpace(w) && (|y| == 0 || !IsSpace(y[0]))
    ensures ToSnake(x + w + y) == Lower(x) + "_" + ToSnake(y)
  {
    LowerRunParts(x, w, y);
    CollapseRun(Lower(x), w, Lower(y), '_');
  }

  /** toKebab turns the first whitespace run into one `-` and goes on after it. */
  lemma KebabRun(x: string, w: string, y: string)
    requires NoSpace(x) && |w| > 0 && AllSpace(w) && (|y| == 0 || !IsSpace(y[0]))
    ensures ToKebab(x + w + y) == Lower(x) + "-" + ToKebab(y)
  {
    LowerRunParts(x, w, y);
    CollapseRun(Lower(x), w, Lower(y), '-');
  }

  /** Without whitespace, toSnake and toKebab only lower-case. */
  lemma CaseWithoutSpaces(s: string)
    requires NoSpace(s)
    ensures ToSnake(s) == Lower(s) && ToKebab(s) == Lower(s)
  {
    CollapseWithoutSpaces(Lower(s), '_');
    CollapseWithoutSpaces(Lower(s), '-');
  }

  lemma LowerWithoutUpper(s: string)
    requires forall i :: 0 <= i < |s| ==> !IsUpper(s[i])
    ensures Lower(s) == s
  {
  }

  /** Applying toSnake to its own output changes nothing. */
  lemma SnakeIdempotent(s: string)
    ensures ToSnake(ToSnake(s)) == ToSnake(s)
  {
    var t := ToSnake(s);
    forall i | 0 <= i < |t|
      ensures !IsUpper(t[i])
    {
      assert t[i] == '_' || t[i] in Lower(s);
    }
    LowerWithoutUpper(t);
    CollapseWithoutSpaces(t, '_');
  }

  /** Applying toKebab to its own output changes nothing. */
  lemma KebabIdempotent(s: string)
    ensures ToKebab(ToKebab(s)) == ToKebab(s)
  {
    var t := ToKebab(s);
    forall i | 0 <= i < |t|
      ensures !IsUpper(t[i])
    {
      assert t[i] == '-' || t[i] in Lower(s);
    }
    LowerWithoutUpper(t);
    CollapseWithoutSpaces(t, '-');
  }

  /** The left-to-right scan the global regular expression performs: one separator at the
      start of each whitespace run, the rest of the run skipped. It computes exactly the
      recursive definition above. */
  method CollapseScan(s: string, sep: char) returns (r: string)
    ensures r == CollapseSpaces(s, sep)
  {
    r := "";
    var i := 0;
    var inRun := false;
    while i < |s|
      invariant 0 <= i <= |s|
      invariant !inRun ==> r + CollapseSpaces(s[i..], sep) == CollapseSpaces(s, sep)
      invariant inRun ==> r + CollapseSpaces(DropSpaces(s[i..]), sep) == CollapseSpaces(s, sep)
    {
      ghost var tail := s[i..];
      assert tail[0] == s[i] && tail[1..] == s[i + 1..];
      if IsSpace(s[i]) {
        ghost var later := CollapseSpaces(DropSpaces(s[i + 1..]), sep);
        CollapseSpaceHead(tail, sep);
        if !inRun {
          Seqs.AppendAssoc(r, [sep], later);
          r := r + [sep];
          inRun := true;
        }
      } else {
        CollapseOtherHead(tail, sep);
        Seqs.AppendAssoc(r, [s[i]], CollapseSpaces(s[i + 1..], sep));
        r := r + [s[i]];
        inRun := false;
      }
      i := i + 1;
    }
  }

  /** One step of the scan at a whitespace character. */
  lemma CollapseSpaceHead(t: string, sep: char)
    requires |t| > 0 && IsSpace(t[0])
    ensures CollapseSpaces(t, sep) == [sep] + CollapseSpaces(DropSpaces(t[1..]), sep)
    ensures DropSpaces(t) == DropSpaces(t[1..])
  {
  }

  /** One step of the scan at any other character. */
  lemma CollapseOtherHead(t: string, sep: char)
    requires |t| > 0 && !IsSpace(t[0])
    ensures CollapseSpaces(t, sep) == [t[0]] + CollapseSpaces(t[1..], sep)
    ensures DropSpaces(t) == t
  {
  }

  /* ---------- upper and lower ---------- */

  /** The `upper` action: `t.toUpperCase()`. */
  function UpperAction(t: string): (r: Outcome)
    ensures r.Text? && |r.s| == |t|
    ensures forall i :: 0 <= i < |r.s| ==> !IsLower(r.s[i])
  {
    Text(Upper(t))
  }

  /** Upper-casing loses nothing but case: lower-casing the result gives back the
      lower-cased input. */
  lemma UpperKeepsLetters(t: string)
    ensures Lower(UpperAction(t).s) == Lower(t)
  {
  }

  /** The `lower` action as written: `(t) => t.toLowerCase` returns the method, which the
      output box shows as its source text, whatever the input. */
  function LowerActionAsWritten(t: string): (r: Outcome)
    ensures r == Text(NativeToLowerCaseText)
  {
    Text(NativeToLowerCaseText)
  }

  /** The `lower` action as evidently intended: `t.toLowerCase()`. */
  function LowerActionIntended(t: string): (r: Outcome)
    ensures r.Text? && |r.s| == |t|
    ensures forall i :: 0 <= i < |r.s| ==> !IsUpper(r.s[i])
    ensures forall i :: 0 <= i < |t| && !IsUpper(t[i]) ==> r.s[i] == t[i]
  {
    Text(Lower(t))
  }

  lemma LowerActionDiverges()
    ensures LowerActionAsWritten("A") != LowerActionIntended("A")
    ensures LowerActionIntended("A") == Text("a")
  {
    assert LowerActionIntended("A").s[0] == 'a';
    assert |LowerActionAsWritten("A").s| != 1;
  }

  /* ---------- title case ---------- */

  /** `\b\w` matches at `i`: a word character with no word character before it. */
  predicate WordStart(t: string, i: int)
    requires 0 <= i < |t|
  {
    IsWordChar(t[i]) && (i == 0 || !IsWordChar(t[i - 1]))
  }

  /** toTitleCase as written: the replacement callback calls `caches.ToUpperCase()`, which
      throws the first time the pattern matches; without a match the lower-cased text is
      returned. */
  function ToTitleCase(s: string): (r: Outcome)
    ensures r == Text(Lower(s)) || r == Threw(TypeError)
  {
    var t := Lower(s);
    if exists i :: 0 <= i < |t| && WordStart(t, i) then Threw(TypeError) else Text(t)
  }

  lemma {:induction false} WordStartAtOrBefore(t: string, i: int)
    requires 0 <= i < |t| && IsWordChar(t[i])
    ensures exists j :: 0 <= j <= i && WordStart(t, j)
    decreases i
  {
    if !WordStart(t, i) {
      WordStartAtOrBefore(t, i - 1);
    }
  }

  /** toTitleCase throws exactly when the input holds a word character (`[A-Za-z0-9_]`),
      and otherwise returns the lower-cased input. */
  lemma TitleCaseFailsIffWordChar(s: string)
    ensures ToTitleCase(s).Threw? <==> exists i :: 0 <= i < |s| && IsWordChar(s[i])
    ensures ToTitleCase(s).Text? ==> ToTitleCase(s).s == Lower(s)
  {
    var t := Lower(s);
    if i :| 0 <= i < |s| && IsWordChar(s[i]) {
      assert IsWordChar(t[i]);
      WordStartAtOrBefore(t, i);
    }
    if j :| 0 <= j < |t| && WordStart(t, j) {
      assert IsWordChar(s[j]);
    }
  }

  /** toTitleCase as evidently intended: the replacement upper-cases the matched
      character. */
  function TitleCaseIntended(s: string): (r: string)
    ensures |r| == |s|
  {
    var t := Lower(s);
    seq(|t|, i requires 0 <= i < |t| => if WordStart(t, i) then UpperChar(t[i]) else t[i])
  }

  lemma LowerUpperLower(c: char)
    ensures LowerChar(UpperChar(LowerChar(c))) == LowerChar(c)
  {
  }

  /** The intended title case changes only the case of word-initial letters: it keeps the
      lower-cased text, and applying it twice is the same as once. */
  lemma TitleCaseIntendedProperties(s: string)
    ensures Lower(TitleCaseIntended(s)) == Lower(s)
    ensures TitleCaseIntended(TitleCaseIntended(s)) == TitleCaseIntended(s)
    ensures forall i :: 0 <= i < |s| && WordStart(Lower(s), i) ==> !IsLower(TitleCaseIntended(s)[i])
  {
    var t := Lower(s);
    var r := TitleCaseIntended(s);
    forall i | 0 <= i < |s|
      ensures Lower(r)[i] == t[i]
    {
      LowerUpperLower(s[i]);
    }
    assert Lower(r) == t;
  }

  lemma TitleCaseDiverges()
    ensures ToTitleCase("ab").Threw?
    ensures TitleCaseIntended("ab") == "Ab"
  {
    TitleCaseFailsIffWordChar("ab");
    assert IsWordChar("ab"[0]);
    var r := TitleCaseIntended("ab");
    assert WordStart(Lower("ab"), 0) && !WordStart(Lower("ab"), 1);
    assert r[0] == 'A' && r[1] == 'b';
  }

  /* ---------- sentence case ---------- */

  /** toSentenceCase as written: `str.charAt(0)` is a string, and strings have no
      `ToUpperCase` method, so every input throws (the empty one included). */
  function ToSentenceCase(s: string): (r: Outcome)
    ensures r.Threw?
  {
    Threw(TypeError)
  }

  /** toSentenceCase as evidently intended: first character upper-cased, the rest
      lower-cased. */
  function SentenceCaseIntended(s: string): (r: string)
    ensures |r| == |s|
    ensures |s| > 0 ==> !IsLower(r[0])
  {
    if |s| == 0 then "" else [UpperChar(s[0])] + Lower(s[1..])
  }

  /** The intended sentence case keeps the lower-cased text and is idempotent. */
  lemma SentenceCaseIntendedProperties(s: string)
    ensures Lower(SentenceCaseIntended(s)) == Lower(s)
    ensures SentenceCaseIntended(SentenceCaseIntended(s)) == SentenceCaseIntended(s)
  {
    if |s| > 0 {
      var r := SentenceCaseIntended(s);
      LowerUpperLower(s[0]);
      assert Lower(r)[0] == Lower(s)[0];
      assert Lower(r) == Lower(s);
      assert r[1..] == Lower(s[1..]);
      assert Lower(r[1..]) == r[1..];
    }
  }

  lemma SentenceCaseDiverges()
    ensures ToSentenceCase("ab").Threw?
    ensures SentenceCaseIntended("ab") == "Ab"
  {
    var r := SentenceCaseIntended("ab");
    assert r[0] == 'A' && r[1] == 'b';
  }

  /* ---------- camel case ---------- */

  /** A pattern without the `u` flag runs over UTF-16 code units: a character below
      U+10000 is one unit, a later one a surrogate pair. */
  function CodeUnits(c: char): (u: seq<int>)
    ensures c as int < 0x10000 ==> u == [c as int]
    ensures c as int >= 0x10000 ==> |u| == 2 && 0xD800 <= u[0] < 0xDC00 && 0xDC00 <= u[1] < 0xE000
  {
    var v := c as int;
    if v < 0x10000 then [v] else [0xD800 + (v - 0x10000) / 0x400, 0xDC00 + (v - 0x10000) % 0x400]
  }

  /** The UTF-16 code units of a string: at least one per character. */
  function Utf16(s: string): (u: seq<int>)
    ensures |u| >= |s|
    decreases |s|
  {
    if |s| == 0 then [] else CodeUnits(s[0]) + Utf16(s[1..])
  }

  /** `[a-zA-Z0-9]` on a code unit. */
  predicate AlnumUnit(x: int) { 48 <= x <= 57 || 65 <= x <= 90 || 97 <= x <= 122 }

  /** The code units `.` refuses to match. */
  predicate LineTerminatorUnit(x: int) { x == 10 || x == 13 || x == 0x2028 || x == 0x2029 }

  /** `[^a-zA-Z0-9]+(.)` matches u[i..j+1]: a run of non-alphanumeric units then any unit
      but a line terminator. */
  predicate CamelMatch(u: seq<int>, i: int, j: int)
  {
    && 0 <= i < j < |u|
    && (forall k :: i <= k < j ==> !AlnumUnit(u[k]))
    && !LineTerminatorUnit(u[j])
  }

  /** toCamel as written: the callback calls `c.ToUpperCase()` on the captured unit,
      which throws the first time the pattern matches; without a match the lower-cased
      text is returned. */
  function ToCamel(s: string): (r: Outcome)
    ensures r == Text(Lower(s)) || r == Threw(TypeError)
  {
    var t := Lower(s);
    var u := Utf16(t);
    if exists i, j | 0 <= i < j < |u| :: CamelMatch(u, i, j) then Threw(TypeError) else Text(t)
  }

  /** Some unit that is not alphanumeric is followed by one that is not a line
      terminator: the shortest match the pattern can make. */
  predicate PairIn(u: seq<int>)
    decreases |u|
  {
    |u| >= 2 && ((!AlnumUnit(u[0]) && !LineTerminatorUnit(u[1])) || PairIn(u[1..]))
  }

  lemma {:induction false} PairAt(u: seq<int>, k: nat)
    requires k + 1 < |u| && !AlnumUnit(u[k]) && !LineTerminatorUnit(u[k + 1])
    ensures PairIn(u)
    decreases k
  {
    if k > 0 {
      assert u[1..][k - 1] == u[k] && u[1..][k] == u[k + 1];
      PairAt(u[1..], k - 1);
    }
  }

  /** The pattern matches somewhere exactly when such a pair of units occurs. */
  lemma {:induction false} MatchIffPair(u: seq<int>)
    ensures (exists i, j :: CamelMatch(u, i, j)) <==> PairIn(u)
    decreases |u|
  {
    if i, j :| CamelMatch(u, i, j) {
      PairAt(u, j - 1);
    }
    if PairIn(u) {
      if !AlnumUnit(u[0]) && !LineTerminatorUnit(u[1]) {
        assert CamelMatch(u, 0, 1);
      } else {
        MatchIffPair(u[1..]);
        var i, j :| CamelMatch(u[1..], i, j);
        assert forall k :: i + 1 <= k < j + 1 ==> u[k] == u[1..][k - 1];
        assert CamelMatch(u, i + 1, j + 1);
      }
    }
  }

  /** In characters: some character from U+10000 on (its high surrogate then its low
      one), or a non-alphanumeric character followed by one that is not a line
      terminator. */
  predicate CamelTrigger(s: string)
    decreases |s|
  {
    |s| >= 1 &&
    (s[0] as int >= 0x10000 || (|s| >= 2 && !IsAlnum(s[0]) && !IsLineTerminator(s[1])) || CamelTrigger(s[1..]))
  }

  /** A character's first code unit is a line terminator exactly when the character is. */
  lemma FirstUnit(c: char, rest: seq<int>)
    ensures |CodeUnits(c) + rest| > 0
    ensures LineTerminatorUnit((CodeUnits(c) + rest)[0]) <==> IsLineTerminator(c)
    ensures c as int < 0x10000 ==> (AlnumUnit((CodeUnits(c) + rest)[0]) <==> IsAlnum(c))
  {
  }

  lemma {:induction false} PairInUtf16(s: string)
    ensures PairIn(Utf16(s)) <==> CamelTrigger(s)
    decreases |s|
  {
    if |s| > 0 {
      var u := Utf16(s);
      var rest := Utf16(s[1..]);
      assert u == CodeUnits(s[0]) + rest;
      PairInUtf16(s[1..]);
      if s[0] as int < 0x10000 {
        FirstUnit(s[0], rest);
        assert u[1..] == rest;
        if |s| >= 2 {
          assert rest == CodeUnits(s[1..][0]) + Utf16(s[1..][1..]);
          FirstUnit(s[1], Utf16(s[1..][1..]));
          assert u[1] == rest[0];
        }
      } else {
        assert !AlnumUnit(u[0]) && !LineTerminatorUnit(u[1]);
      }
    }
  }

  lemma {:induction false} TriggerIffExists(s: string)
    ensures CamelTrigger(s) <==>
              exists k :: 0 <= k < |s| &&
                (s[k] as int >= 0x10000 || (k + 1 < |s| && !IsAlnum(s[k]) && !IsLineTerminator(s[k + 1])))
    decreases |s|
  {
    if |s| > 0 {
      TriggerIffExists(s[1..]);
      if CamelTrigger(s[1..]) {
        var k :| 0 <= k < |s[1..]| &&
          (s[1..][k] as int >= 0x10000 || (k + 1 < |s[1..]| && !IsAlnum(s[1..][k]) && !IsLineTerminator(s[1..][k + 1])));
        assert s[k + 1] == s[1..][k];
        assert k + 2 < |s| ==> s[k + 2] == s[1..][k + 1];
      }
      if k :| (0 < k < |s| &&
                (s[k] as int >= 0x10000 || (k + 1 < |s| && !IsAlnum(s[k]) && !IsLineTerminator(s[k + 1])))) {
        assert s[1..][k - 1] == s[k];
        assert k < |s[1..]| ==> s[1..][k] == s[k + 1];
      }
    }
  }

  /** toCamel throws exactly when the text holds a character from U+10000 on, or a
      non-alphanumeric character followed by one that is not a line terminator;
      otherwise it returns the lower-cased input. */
  lemma CamelFailsIff(s: string)
    ensures ToCamel(s).Threw? <==>
              exists k :: 0 <= k < |s| &&
                (s[k] as int >= 0x10000 || (k + 1 < |s| && !IsAlnum(s[k]) && !IsLineTerminator(s[k + 1])))
    ensures ToCamel(s).Text? ==> ToCamel(s).s == Lower(s)
  {
    var t := Lower(s);
    MatchIffPair(Utf16(t));
    PairInUtf16(t);
    TriggerIffExists(t);
    assert forall k :: 0 <= k < |s| ==> (t[k] as int >= 0x10000 <==> s[k] as int >= 0x10000);
    assert forall k :: 0 <= k < |s| ==> (IsAlnum(t[k]) <==> IsAlnum(s[k]));
    assert forall k :: 0 <= k < |s| ==> (IsLineTerminator(t[k]) <==> IsLineTerminator(s[k]));
  }

  /** A lone emoji is one character but two code units, and the pattern captures its low
      surrogate: toCamel throws. */
  lemma CamelThrowsOnEmoji()
    ensures ToCamel("\U{1F600}").Threw?
  {
    CamelFailsIff("\U{1F600}");
    assert "\U{1F600}"[0] as int >= 0x10000;
  }
}
