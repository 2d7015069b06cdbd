/**
 * The browser script's `escapeHtml` helper: five global single-character
 * replacements applied in a fixed order, `&` first.  The model keeps the
 * chain as written and proves it equal to a per-character substitution,
 * which is then shown to produce text free of markup characters and to be
 * undone exactly by an entity decoder.
 */
module HtmlEscape {

  /** `s.replace(/c/g, rep)` for a literal character `c` that is no regular
      expression metacharacter and a replacement `rep` without `$` patterns,
      as in the five calls of the helper: every occurrence of `c`, left to
      right, becomes `rep`; everything else is copied in order. */
  function ReplaceAll(s: string, c: char, rep: string): (r: string)
    ensures c !in rep ==> c !in r
    ensures c !in s ==> r == s
    ensures |rep| >= 1 ==> |r| >= |s|
  {
    if s == [] then []
    else (if s[0] == c then rep else [s[0]]) + ReplaceAll(s[1..], c, rep)
  }

  /** `escapeHtml(str)` exactly as the script chains its replacements. */
  function EscapeHtml(s: string): (r: string)
    ensures |r| >= |s|
    ensures '\'' !in r
    ensures '&' !in s && '<' !in s && '>' !in s && '"' !in s && '\'' !in s ==> r == s
  {
    ReplaceAll(
      ReplaceAll(
        ReplaceAll(
          ReplaceAll(
            ReplaceAll(s, '&', "&amp;"),
            '<', "&lt;"),
          '>', "&gt;"),
        '"', "&quot;"),
      '\'', "&#039;")
  }

  /** The five characters the helper rewrites. */
  predicate IsSpecial(c: char)
  {
    c == '&' || c == '<' || c == '>' || c == '"' || c == '\''
  }

  /** The four characters that may never appear in escaped text. */
  predicate IsMarkup(c: char)
  {
    c == '<' || c == '>' || c == '"' || c == '\''
  }

  /** The replacement of one character, as a single substitution table. */
  function EscapeChar(c: char): (r: string)
    ensures |r| >= 1
    ensures r == [c] <==> !IsSpecial(c)
    ensures IsSpecial(c) ==> r[0] == '&'
  {
    match c
    case '&' => "&amp;"
    case '<' => "&lt;"
    case '>' => "&gt;"
    case '"' => "&quot;"
    case '\'' => "&#039;"
    case _ => [c]
  }

  /** Reference definition: each character replaced by its table entry, in order. */
  function EscapePerChar(s: string): (r: string)
    ensures |r| >= |s|
  {
    if s == [] then [] else EscapeChar(s[0]) + EscapePerChar(s[1..])
  }

  /** True when `t` begins with one of the five entities the helper emits. */
  predicate StartsEntity(t: string)
  {
    "&amp;" <= t || "&lt;" <= t || "&gt;" <= t || "&quot;" <= t || "&#039;" <= t
  }

  /** Text as the helper produces it: no markup character, and every `&`
      opens one of the five entities. */
  predicate IsEscaped(t: string)
  {
    forall i :: 0 <= i < |t| ==> !IsMarkup(t[i]) && (t[i] == '&' ==> StartsEntity(t[i..]))
  }

  /** Decoder: reads the five entities back as their characters, left to
      right, and copies every other character. */
  function Unescape(t: string): string
    decreases |t|
  {
    if t == [] then []
    else if "&amp;" <= t then "&" + Unescape(t[5..])
    else if "&lt;" <= t then "<" + Unescape(t[4..])
    else if "&gt;" <= t then ">" + Unescape(t[4..])
    else if "&quot;" <= t then "\"" + Unescape(t[6..])
    else if "&#039;" <= t then "'" + Unescape(t[6..])
    else [t[0]] + Unescape(t[1..])
  }

  // ---------------------------------------------------------------------
  // The chain equals the per-character substitution.
  // ---------------------------------------------------------------------

  lemma {:induction false} ReplaceAllConcat(a: string, b: string, c: char, rep: string)
    ensures ReplaceAll(a + b, c, rep) == ReplaceAll(a, c, rep) + ReplaceAll(b, c, rep)
    decreases |a|
  {
    if a == [] {
      assert a + b == b;
    } else {
      assert (a + b)[0] == a[0];
      assert (a + b)[1..] == a[1..] + b;
      ReplaceAllConcat(a[1..], b, c, rep);
    }
  }

  /** The whole chain distributes over concatenation. */
  lemma EscapeHtmlConcat(a: string, b: string)
    ensures EscapeHtml(a + b) == EscapeHtml(a) + EscapeHtml(b)
  {
    var a1, b1 := ReplaceAll(a, '&', "&amp;"), ReplaceAll(b, '&', "&amp;");
    ReplaceAllConcat(a, b, '&', "&amp;");
    var a2, b2 := ReplaceAll(a1, '<', "&lt;"), ReplaceAll(b1, '<', "&lt;");
    ReplaceAllConcat(a1, b1, '<', "&lt;");
    var a3, b3 := ReplaceAll(a2, '>', "&gt;"), ReplaceAll(b2, '>', "&gt;");
    ReplaceAllConcat(a2, b2, '>', "&gt;");
    var a4, b4 := ReplaceAll(a3, '"', "&quot;"), ReplaceAll(b3, '"', "&quot;");
    ReplaceAllConcat(a3, b3, '"', "&quot;");
    ReplaceAllConcat(a4, b4, '\'', "&#039;");
  }

  lemma ReplaceAllOne(c: char, d: char, rep: string)
    ensures ReplaceAll([c], d, rep) == if c == d then rep else [c]
  {
    assert [c][1..] == [];
  }

  /** A character other than the five passes through all five steps. */
  lemma EscapeHtmlPlain(c: char)
    requires !IsSpecial(c)
    ensures EscapeHtml([c]) == [c]
  {
    ReplaceAllOne(c, '&', "&amp;");
    ReplaceAllOne(c, '<', "&lt;");
    ReplaceAllOne(c, '>', "&gt;");
    ReplaceAllOne(c, '"', "&quot;");
    ReplaceAllOne(c, '\'', "&#039;");
  }

  /** A special character is rewritten by its own step; the entity it becomes
      holds none of the characters targeted by the later steps. */
  lemma EscapeHtmlSpecial(c: char)
    requires IsSpecial(c)
    ensures EscapeHtml([c]) == EscapeChar(c)
  {
    var r1 := ReplaceAll([c], '&', "&amp;");
    ReplaceAllOne(c, '&', "&amp;");
    if c == '&' {
      assert '<' !in "&amp;" && '>' !in "&amp;" && '"' !in "&amp;" && '\'' !in "&amp;";
      return;
    }
    var r2 := ReplaceAll(r1, '<', "&lt;");
    ReplaceAllOne(c, '<', "&lt;");
    if c == '<' {
      assert '>' !in "&lt;" && '"' !in "&lt;" && '\'' !in "&lt;";
      return;
    }
    var r3 := ReplaceAll(r2, '>', "&gt;");
    ReplaceAllOne(c, '>', "&gt;");
    if c == '>' {
      assert '"' !in "&gt;" && '\'' !in "&gt;";
      return;
    }
    ReplaceAllOne(c, '"', "&quot;");
    if c == '"' {
      assert '\'' !in "&quot;";
      return;
    }
    ReplaceAllOne(c, '\'', "&#039;");
  }

  /** On one character the chain gives that character's table entry: `&` is
      rewritten first, and no later target occurs in an earlier replacement. */
  lemma EscapeHtmlChar(c: char)
    ensures EscapeHtml([c]) == EscapeChar(c)
  {
    if IsSpecial(c) {
      EscapeHtmlSpecial(c);
    } else {
      EscapeHtmlPlain(c);
    }
  }

  /** The five sequential replacements equal one per-character substitution. */
  lemma {:induction false} EscapeHtmlIsPerChar(s: string)
    ensures EscapeHtml(s) == EscapePerChar(s)
    decreases |s|
  {
    if s != [] {
      assert s == [s[0]] + s[1..];
      EscapeHtmlConcat([s[0]], s[1..]);
      EscapeHtmlChar(s[0]);
      EscapeHtmlIsPerChar(s[1..]);
    }
  }

  // ---------------------------------------------------------------------
  // What the output looks like.
  // ---------------------------------------------------------------------

  lemma PrefixExtends(p: string, x: string, y: string)
    requires p <= x
    ensures p <= x + y
  {
    assert (x + y)[..|p|] == x[..|p|];
  }

  lemma IsEscapedConcat(a: string, b: string)
    requires IsEscaped(a) && IsEscaped(b)
    ensures IsEscaped(a + b)
  {
    forall i | 0 <= i < |a + b| && (a + b)[i] == '&'
      ensures StartsEntity((a + b)[i..])
    {
      if i < |a| {
        assert (a + b)[i..] == a[i..] + b;
        var t := a[i..];
        assert StartsEntity(t);
        if "&amp;" <= t { PrefixExtends("&amp;", t, b); }
        else if "&lt;" <= t { PrefixExtends("&lt;", t, b); }
        else if "&gt;" <= t { PrefixExtends("&gt;", t, b); }
        else if "&quot;" <= t { PrefixExtends("&quot;", t, b); }
        else { PrefixExtends("&#039;", t, b); }
      } else {
        assert (a + b)[i..] == b[i - |a|..];
      }
    }
  }

  lemma EscapeCharIsEscaped(c: char)
    ensures IsEscaped(EscapeChar(c))
  {
    var r := EscapeChar(c);
    if IsSpecial(c) {
      assert r[0..] == r;
    }
  }

  lemma {:induction false} EscapePerCharIsEscaped(s: string)
    ensures IsEscaped(EscapePerChar(s))
    decreases |s|
  {
    if s != [] {
      EscapeCharIsEscaped(s[0]);
      EscapePerCharIsEscaped(s[1..]);
      IsEscapedConcat(EscapeChar(s[0]), EscapePerChar(s[1..]));
    }
  }

  /** The output never holds `<`, `>`, `"` or `'`, and every `&` in it opens
      one of `&amp;`, `&lt;`, `&gt;`, `&quot;`, `&#039;`. */
  lemma EscapeHtmlIsEscaped(s: string)
    ensures forall i :: 0 <= i < |EscapeHtml(s)| ==> !IsMarkup(EscapeHtml(s)[i])
    ensures forall i :: 0 <= i < |EscapeHtml(s)| && EscapeHtml(s)[i] == '&' ==> StartsEntity(EscapeHtml(s)[i..])
  {
    EscapeHtmlIsPerChar(s);
    EscapePerCharIsEscaped(s);
  }

  // ---------------------------------------------------------------------
  // Decoding: the escape is undone exactly, and its image is IsEscaped.
  // ---------------------------------------------------------------------

  lemma UnescapeEntity(e: string, c: char, rest: string)
    requires e == EscapeChar(c) && IsSpecial(c)
    ensures Unescape(e + rest) == [c] + Unescape(rest)
  {
    var t := e + rest;
    assert t[..|e|] == e;
    assert t[|e|..] == rest;
    assert t[0] == '&' && t[1] == e[1];
  }

  lemma UnescapePlain(c: char, rest: string)
    requires !IsSpecial(c)
    ensures Unescape([c] + rest) == [c] + Unescape(rest)
  {
    var t := [c] + rest;
    assert t[0] == c;
    assert t[1..] == rest;
  }

  lemma {:induction false} UnescapeEscapePerChar(s: string)
    ensures Unescape(EscapePerChar(s)) == s
    decreases |s|
  {
    if s != [] {
      var rest := EscapePerChar(s[1..]);
      if IsSpecial(s[0]) {
        UnescapeEntity(EscapeChar(s[0]), s[0], rest);
      } else {
        UnescapePlain(s[0], rest);
      }
      UnescapeEscapePerChar(s[1..]);
      assert s == [s[0]] + s[1..];
    }
  }

  /** Decoding the five entities recovers the original string exactly. */
  lemma UnescapeEscapeHtml(s: string)
    ensures Unescape(EscapeHtml(s)) == s
  {
    EscapeHtmlIsPerChar(s);
    UnescapeEscapePerChar(s);
  }

  /** Different inputs never escape to the same text. */
  lemma EscapeHtmlInjective(s1: string, s2: string)
    ensures EscapeHtml(s1) == EscapeHtml(s2) ==> s1 == s2
  {
    UnescapeEscapeHtml(s1);
    UnescapeEscapeHtml(s2);
  }

  lemma IsEscapedSuffix(t: string, k: nat)
    requires IsEscaped(t) && k <= |t|
    ensures IsEscaped(t[k..])
  {
    forall i | 0 <= i < |t[k..]|
      ensures !IsMarkup(t[k..][i]) && (t[k..][i] == '&' ==> StartsEntity(t[k..][i..]))
    {
      assert t[k..][i] == t[k + i];
      assert t[k..][i..] == t[k + i..];
    }
  }

  lemma EscapePerCharCons(c: char, u: string)
    ensures EscapePerChar([c] + u) == EscapeChar(c) + EscapePerChar(u)
  {
    assert ([c] + u)[0] == c;
    assert ([c] + u)[1..] == u;
  }

  /** One decoding step on escaped text: its head is the table entry of the
      character the decoder emits. */
  lemma UnescapeStep(t: string) returns (c: char, n: nat)
    requires IsEscaped(t) && t != []
    ensures 1 <= n <= |t| && t[..n] == EscapeChar(c)
    ensures Unescape(t) == [c] + Unescape(t[n..])
  {
    if StartsEntity(t) {
      if "&amp;" <= t { c := '&'; }
      else if "&lt;" <= t { c := '<'; }
      else if "&gt;" <= t { c := '>'; }
      else if "&quot;" <= t { c := '"'; }
      else { c := '\''; }
      n := |EscapeChar(c)|;
      assert t == t[..n] + t[n..];
      UnescapeEntity(t[..n], c, t[n..]);
    } else {
      assert t[0..] == t;
      c, n := t[0], 1;
      assert t == [c] + t[1..];
      UnescapePlain(c, t[1..]);
    }
  }

  lemma {:induction false} EscapePerCharUnescape(t: string)
    requires IsEscaped(t)
    ensures EscapePerChar(Unescape(t)) == t
    decreases |t|
  {
    if t != [] {
      var c, n := UnescapeStep(t);
      IsEscapedSuffix(t, n);
      EscapePerCharUnescape(t[n..]);
      EscapePerCharCons(c, Unescape(t[n..]));
      assert t == t[..n] + t[n..];
    }
  }

  /** Every escaped-looking text is the escape of its decoding, so IsEscaped
      is exactly the set of strings the helper can produce. */
  lemma EscapeHtmlUnescape(t: string)
    requires IsEscaped(t)
    ensures EscapeHtml(Unescape(t)) == t
  {
    EscapeHtmlIsPerChar(Unescape(t));
    EscapePerCharUnescape(t);
  }

  // ---------------------------------------------------------------------
  // Length and the identity case.
  // ---------------------------------------------------------------------

  lemma {:induction false} EscapePerCharLength(s: string)
    ensures |EscapePerChar(s)| == |s| <==> (forall i :: 0 <= i < |s| ==> !IsSpecial(s[i]))
    ensures (forall i :: 0 <= i < |s| ==> !IsSpecial(s[i])) ==> EscapePerChar(s) == s
    decreases |s|
  {
    if s != [] {
      EscapePerCharLength(s[1..]);
      assert forall i :: 1 <= i < |s| ==> s[i] == s[1..][i - 1];
      assert s == [s[0]] + s[1..];
    }
  }

  /** The output is never shorter than the input, and equals it exactly when
      the input has none of the five special characters. */
  lemma EscapeHtmlLength(s: string)
    ensures |EscapeHtml(s)| >= |s|
    ensures EscapeHtml(s) == s <==> (forall i :: 0 <= i < |s| ==> !IsSpecial(s[i]))
  {
    EscapeHtmlIsPerChar(s);
    EscapePerCharLength(s);
  }
}
