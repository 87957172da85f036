/** HTML entity handling of the audio app (apps/day02-audio-equalizer/app.js):
    decodeEntities, five global replacements applied one after another, and escapeHtml,
    three global replacements with `&` first. */
module Entities {

  /** String.prototype.replace with a global pattern (and replaceAll with a string
      pattern): occurrences are found left to right, never overlapping, and the scan
      resumes after each replacement, so replaced text is never rescanned. */
  function ReplaceAll(s: string, pat: string, rep: string): (r: string)
    requires |pat| > 0
    ensures |rep| <= |pat| ==> |r| <= |s|
    decreases |s|
  {
    if |s| < |pat| then s
    else if s[..|pat|] == pat then rep + ReplaceAll(s[|pat|..], pat, rep)
    else [s[0]] + ReplaceAll(s[1..], pat, rep)
  }

  /** Text that never contains the first character of `pat` is left alone. */
  lemma {:induction false} ReplaceAllMissingHead(s: string, pat: string, rep: string)
    requires |pat| > 0
    requires forall i :: 0 <= i < |s| ==> s[i] != pat[0]
    ensures ReplaceAll(s, pat, rep) == s
    decreases |s|
  {
    if |s| >= |pat| {
      assert s[..|pat|][0] == s[0];
      ReplaceAllMissingHead(s[1..], pat, rep);
    }
  }

  /** decodeEntities, as written: `&amp;` is decoded first, so the `&` it produces can
      start one of the later entities. */
  function DecodeEntities(s: string): (r: string)
    ensures |r| <= |s|
  {
    var a := ReplaceAll(s, "&amp;", "&");
    var b := ReplaceAll(a, "&lt;", "<");
    var c := ReplaceAll(b, "&gt;", ">");
    var d := ReplaceAll(c, "&quot;", "\"");
    ReplaceAll(d, "&#39;", "'")
  }

  /** Text without an ampersand contains no entity and is returned unchanged. */
  lemma DecodeWithoutAmpersand(s: string)
    requires forall i :: 0 <= i < |s| ==> s[i] != '&'
    ensures DecodeEntities(s) == s
  {
    ReplaceAllMissingHead(s, "&amp;", "&");
    ReplaceAllMissingHead(s, "&lt;", "<");
    ReplaceAllMissingHead(s, "&gt;", ">");
    ReplaceAllMissingHead(s, "&quot;", "\"");
    ReplaceAllMissingHead(s, "&#39;", "'");
  }

  /** The replacements run in order, so a doubly escaped `&amp;lt;` comes out as `<`
      rather than as the text `&lt;` it encodes. */
  lemma DoubleDecoding()
    ensures DecodeEntities("&amp;lt;") == "<"
  {
    assert ReplaceAll("&amp;lt;", "&amp;", "&") == "&lt;" by {
      var s := "&amp;lt;";
      assert s[..5] == "&amp;" && s[5..] == "lt;";
      assert ReplaceAll("lt;", "&amp;", "&") == "lt;";
    }
    assert ReplaceAll("&lt;", "&lt;", "<") == "<" by {
      assert "&lt;"[..4] == "&lt;" && "&lt;"[4..] == [];
    }
    assert ReplaceAll("<", "&gt;", ">") == "<";
    assert ReplaceAll("<", "&quot;", "\"") == "<";
    assert ReplaceAll("<", "&#39;", "'") == "<";
  }

  /* ---------- escapeHtml and a single-pass decoder ---------- */

  /** The escape of one character under escapeHtml. */
  function EscapeChar(c: char): (r: string)
    ensures |r| >= 1
    ensures c != '&' && c != '<' && c != '>' ==> r == [c]
  {
    if c == '&' then "&amp;" else if c == '<' then "&lt;" else if c == '>' then "&gt;" else [c]
  }

  /** escapeHtml (apps/day02-audio-equalizer/app.js:449), character by character. */
  function EscapeHtml(s: string): (r: string)
    ensures |r| >= |s|
    ensures forall i :: 0 <= i < |r| ==> r[i] != '<' && r[i] != '>'
    decreases |s|
  {
    if |s| == 0 then "" else EscapeChar(s[0]) + EscapeHtml(s[1..])
  }

  /** escapeHtml as written: three replaceAll calls, `&` first. */
  function EscapeHtmlAsWritten(s: string): string
  {
    ReplaceAll(ReplaceAll(ReplaceAll(s, "&", "&amp;"), "<", "&lt;"), ">", "&gt;")
  }

  /** Replacing every occurrence of a single character, character by character. */
  function SubChar(s: string, c: char, rep: string): string
    decreases |s|
  {
    if |s| == 0 then "" else (if s[0] == c then rep else [s[0]]) + SubChar(s[1..], c, rep)
  }

  lemma {:induction false} ReplaceCharIsSubChar(s: string, c: char, rep: string)
    ensures ReplaceAll(s, [c], rep) == SubChar(s, c, rep)
    decreases |s|
  {
    if |s| > 0 {
      assert s[..1] == [s[0]];
      ReplaceCharIsSubChar(s[1..], c, rep);
    }
  }

  lemma {:induction false} SubCharConcat(a: string, b: string, c: char, rep: string)
    ensures SubChar(a + b, c, rep) == SubChar(a, c, rep) + SubChar(b, c, rep)
    decreases |a|
  {
    if |a| == 0 {
      assert a + b == b;
    } else {
      assert (a + b)[0] == a[0] && (a + b)[1..] == a[1..] + b;
      SubCharConcat(a[1..], b, c, rep);
    }
  }

  /** Because `&` is escaped first, the three passes amount to escaping each character
      once. */
  lemma {:induction false} EscapeHtmlPasses(s: string)
    ensures EscapeHtmlAsWritten(s) == EscapeHtml(s)
    decreases |s|
  {
    ReplaceCharIsSubChar(s, '&', "&amp;");
    var a := SubChar(s, '&', "&amp;");
    ReplaceCharIsSubChar(a, '<', "&lt;");
    var b := SubChar(a, '<', "&lt;");
    ReplaceCharIsSubChar(b, '>', "&gt;");
    assert EscapeHtmlAsWritten(s) == SubChar(b, '>', "&gt;");
    EscapeInPasses(s);
  }

  lemma {:induction false} EscapeInPasses(s: string)
    ensures SubChar(SubChar(SubChar(s, '&', "&amp;"), '<', "&lt;"), '>', "&gt;") == EscapeHtml(s)
    decreases |s|
  {
    if |s| > 0 {
      var x := s[0];
      var t := s[1..];
      var hd := if x == '&' then "&amp;" else [x];
      assert SubChar(s, '&', "&amp;") == hd + SubChar(t, '&', "&amp;");
      SubCharConcat(hd, SubChar(t, '&', "&amp;"), '<', "&lt;");
      var hd2 := SubChar(hd, '<', "&lt;");
      SubCharConcat(hd2, SubChar(SubChar(t, '&', "&amp;"), '<', "&lt;"), '>', "&gt;");
      EscapeInPasses(t);
      if x == '&' {
        assert hd2 == "&amp;";
        assert SubChar(hd2, '>', "&gt;") == "&amp;";
      } else if x == '<' {
        assert hd2 == "&lt;";
        assert SubChar(hd2, '>', "&gt;") == "&lt;";
      } else {
        assert SubChar(hd2, '>', "&gt;") == EscapeChar(x);
      }
    }
  }

  /** The five entities decodeEntities knows, each with the character it stands for. */
  const Entities: seq<(string, char)> :=
    [("&amp;", '&'), ("&lt;", '<'), ("&gt;", '>'), ("&quot;", '"'), ("&#39;", '\'')]

  /** The first of the five entities that `s` starts with, if any. */
  function EntityAt(s: string): (r: int)
    ensures -1 <= r < |Entities|
    ensures r >= 0 ==> |Entities[r].0| <= |s| && s[..|Entities[r].0|] == Entities[r].0
  {
    if |s| >= 5 && s[..5] == "&amp;" then 0
    else if |s| >= 4 && s[..4] == "&lt;" then 1
    else if |s| >= 4 && s[..4] == "&gt;" then 2
    else if |s| >= 6 && s[..6] == "&quot;" then 3
    else if |s| >= 5 && s[..5] == "&#39;" then 4
    else -1
  }

  /** A decoder that reads the text once, left to right, turning each entity into its
      character and never looking at its own output again. */
  function DecodeOnce(s: string): (r: string)
    ensures |r| <= |s|
    decreases |s|
  {
    if |s| == 0 then ""
    else
      var k := EntityAt(s);
      if k >= 0 then [Entities[k].1] + DecodeOnce(s[|Entities[k].0|..])
      else [s[0]] + DecodeOnce(s[1..])
  }

  /** Decoding undoes escaping: the single-pass decoder recovers any text from its
      escapeHtml form. */
  lemma {:induction false} DecodeOnceEscapeRoundTrip(s: string)
    ensures DecodeOnce(EscapeHtml(s)) == s
    decreases |s|
  {
    if |s| > 0 {
      var x := s[0];
      var rest := EscapeHtml(s[1..]);
      assert EscapeHtml(s) == EscapeChar(x) + rest;
      DecodeOnceEscapeRoundTrip(s[1..]);
      DecodeOnceEscapedChar(x, rest);
      assert s == [x] + s[1..];
    }
  }

  /** The single-pass decoder reads an escaped character back and goes on after it. */
  lemma DecodeOnceEscapedChar(x: char, rest: string)
    ensures DecodeOnce(EscapeChar(x) + rest) == [x] + DecodeOnce(rest)
  {
    var e := EscapeChar(x) + rest;
    if x == '&' {
      assert e[..5] == "&amp;" && e[5..] == rest;
    } else if x == '<' {
      assert e[1] == 'l' && e[..4] == "&lt;" && e[4..] == rest;
      assert EntityAt(e) == 1 by {
        if |e| >= 5 { assert e[..5][1] == 'l'; }
      }
    } else if x == '>' {
      assert e[1] == 'g' && e[..4] == "&gt;" && e[4..] == rest;
      assert EntityAt(e) == 2 by {
        if |e| >= 5 { assert e[..5][1] == 'g'; }
      }
    } else {
      assert e[0] == x && e[1..] == rest;
      assert EntityAt(e) == -1 by {
        if |e| >= 4 { assert e[..4][0] == x; }
        if |e| >= 5 { assert e[..5][0] == x; }
        if |e| >= 6 { assert e[..6][0] == x; }
      }
    }
  }

  /** Where no occurrence starts, the first character is kept and the scan moves on. */
  lemma ReplaceAllSkip(s: string, pat: string, rep: string)
    requires 0 < |pat| <= |s| && s[..|pat|] != pat
    ensures ReplaceAll(s, pat, rep) == [s[0]] + ReplaceAll(s[1..], pat, rep)
  {
  }

  lemma ReplaceAllShort(s: string, pat: string, rep: string)
    requires 0 < |pat| && |s| < |pat|
    ensures ReplaceAll(s, pat, rep) == s
  {
  }

  /** A character that cannot start the pattern is kept. */
  lemma ReplaceAllOneChar(x: char, b: string, pat: string, rep: string)
    requires |pat| > 0 && x != pat[0]
    ensures ReplaceAll([x] + b, pat, rep) == [x] + ReplaceAll(b, pat, rep)
  {
    var s := [x] + b;
    if |s| >= |pat| {
      assert s[..|pat|][0] == x;
      ReplaceAllSkip(s, pat, rep);
      assert s[1..] == b;
    } else {
      ReplaceAllShort(s, pat, rep);
      ReplaceAllShort(b, pat, rep);
    }
  }

  /** Text none of whose characters can start the pattern is kept. */
  lemma {:induction false} ReplaceAllPlain(w: string, b: string, pat: string, rep: string)
    requires |pat| > 0 && forall i :: 0 <= i < |w| ==> w[i] != pat[0]
    ensures ReplaceAll(w + b, pat, rep) == w + ReplaceAll(b, pat, rep)
    decreases |w|
  {
    if |w| > 0 {
      ReplaceAllPlain(w[1..], b, pat, rep);
      ReplaceAllOneChar(w[0], w[1..] + b, pat, rep);
      assert w + b == [w[0]] + (w[1..] + b);
      assert w == [w[0]] + w[1..];
    } else {
      assert w + b == b;
    }
  }

  /** A character followed by one that cannot continue the pattern is kept. */
  lemma ReplaceAllSecondDiffers(c: char, u: string, pat: string, rep: string)
    requires |pat| >= 2 && |u| > 0 && u[0] != pat[1]
    ensures ReplaceAll([c] + u, pat, rep) == [c] + ReplaceAll(u, pat, rep)
  {
    var s := [c] + u;
    if |s| >= |pat| {
      assert s[..|pat|][1] == u[0];
      ReplaceAllSkip(s, pat, rep);
      assert s[1..] == u;
    } else {
      ReplaceAllShort(s, pat, rep);
      ReplaceAllShort(u, pat, rep);
    }
  }

  /** An entity other than the pattern, both starting with `&`, is kept. */
  lemma ReplaceAllOtherEntity(e: string, b: string, pat: string, rep: string)
    requires |e| >= 2 && |pat| >= 2 && e[1] != pat[1]
    requires forall i :: 1 <= i < |e| ==> e[i] != pat[0]
    ensures ReplaceAll(e + b, pat, rep) == e + ReplaceAll(b, pat, rep)
  {
    var w := e[1..];
    var rb := ReplaceAll(b, pat, rep);
    assert e == [e[0]] + w;
    assert e + b == [e[0]] + (w + b);
    ReplaceAllPlain(w, b, pat, rep);
    ReplaceAllSecondDiffers(e[0], w + b, pat, rep);
    assert [e[0]] + (w + rb) == e + rb;
  }

  /** An occurrence at the front is replaced and the scan resumes after it. */
  lemma ReplaceAllFront(b: string, pat: string, rep: string)
    requires |pat| > 0
    ensures ReplaceAll(pat + b, pat, rep) == rep + ReplaceAll(b, pat, rep)
  {
    assert (pat + b)[..|pat|] == pat && (pat + b)[|pat|..] == b;
  }

  /** The five passes of decodeEntities on a text without `&`, ahead of more text. */
  lemma DecodePlainChar(x: char, t: string)
    requires x != '&'
    ensures DecodeEntities([x] + t) == [x] + DecodeEntities(t)
  {
    var a := ReplaceAll(t, "&amp;", "&");
    var b := ReplaceAll(a, "&lt;", "<");
    var c := ReplaceAll(b, "&gt;", ">");
    var d := ReplaceAll(c, "&quot;", "\"");
    ReplaceAllOneChar(x, t, "&amp;", "&");
    ReplaceAllOneChar(x, a, "&lt;", "<");
    ReplaceAllOneChar(x, b, "&gt;", ">");
    ReplaceAllOneChar(x, c, "&quot;", "\"");
    ReplaceAllOneChar(x, d, "&#39;", "'");
  }

  /** `&lt;` ahead of more text decodes to `<`. */
  lemma DecodeLt(t: string)
    ensures DecodeEntities("&lt;" + t) == "<" + DecodeEntities(t)
  {
    var a := ReplaceAll(t, "&amp;", "&");
    ReplaceAllOtherEntity("&lt;", t, "&amp;", "&");
    ReplaceAllFront(a, "&lt;", "<");
    var b := ReplaceAll(a, "&lt;", "<");
    assert ReplaceAll(a, "&lt;", "<") == b;
    DecodeAfterLt(b);
  }

  lemma DecodeAfterLt(b: string)
    ensures var c := ReplaceAll("<" + b, "&gt;", ">");
            var d := ReplaceAll(c, "&quot;", "\"");
            ReplaceAll(d, "&#39;", "'") ==
              "<" + ReplaceAll(ReplaceAll(ReplaceAll(b, "&gt;", ">"), "&quot;", "\""), "&#39;", "'")
  {
    var c := ReplaceAll(b, "&gt;", ">");
    var d := ReplaceAll(c, "&quot;", "\"");
    ReplaceAllOneChar('<', b, "&gt;", ">");
    ReplaceAllOneChar('<', c, "&quot;", "\"");
    ReplaceAllOneChar('<', d, "&#39;", "'");
  }

  /** `&gt;` ahead of more text decodes to `>`. */
  lemma DecodeGt(t: string)
    ensures DecodeEntities("&gt;" + t) == ">" + DecodeEntities(t)
  {
    var a := ReplaceAll(t, "&amp;", "&");
    var b := ReplaceAll(a, "&lt;", "<");
    ReplaceAllOtherEntity("&gt;", t, "&amp;", "&");
    ReplaceAllOtherEntity("&gt;", a, "&lt;", "<");
    ReplaceAllFront(b, "&gt;", ">");
    var c := ReplaceAll(b, "&gt;", ">");
    var d := ReplaceAll(c, "&quot;", "\"");
    ReplaceAllOneChar('>', c, "&quot;", "\"");
    ReplaceAllOneChar('>', d, "&#39;", "'");
  }

  /** On text without `&`, decodeEntities as written does invert escapeHtml: the only
      entities in the escaped text are `&lt;` and `&gt;`, and no pass can create one. */
  lemma {:induction false} DecodeEntitiesEscapeWithoutAmpersand(s: string)
    requires forall i :: 0 <= i < |s| ==> s[i] != '&'
    ensures DecodeEntities(EscapeHtml(s)) == s
    decreases |s|
  {
    if |s| == 0 {
      assert DecodeEntities("") == "";
    } else {
      var x := s[0];
      var rest := EscapeHtml(s[1..]);
      assert EscapeHtml(s) == EscapeChar(x) + rest;
      DecodeEntitiesEscapeWithoutAmpersand(s[1..]);
      if x == '<' {
        DecodeLt(rest);
      } else if x == '>' {
        DecodeGt(rest);
      } else {
        DecodePlainChar(x, rest);
      }
      assert s == [x] + s[1..];
    }
  }

  /** decodeEntities as written does not invert escapeHtml: the text `&lt;` is escaped to
      `&amp;lt;`, which decodes to `<`. */
  lemma DecodeEntitiesEscapeMismatch()
    ensures EscapeHtml("&lt;") == "&amp;lt;"
    ensures DecodeEntities(EscapeHtml("&lt;")) == "<"
    ensures DecodeOnce(EscapeHtml("&lt;")) == "&lt;"
  {
    var s := "&lt;";
    assert EscapeHtml(s) == "&amp;" + EscapeHtml("lt;");
    assert EscapeHtml("lt;") == "lt;" by {
      assert "lt;"[1..] == "t;" && "t;"[1..] == ";" && ";"[1..] == "";
    }
    assert EscapeHtml(s) == "&amp;lt;";
    DoubleDecoding();
    DecodeOnceEscapeRoundTrip(s);
  }
}
