/**
 * The browser script's `getInitials` helper, which turns a participant's
 * name into the one or two letters shown in an avatar: trim, split on runs
 * of white space, keep the first two characters of a lone part or the first
 * characters of the first and last parts, then upper-case.
 */
module Initials {

  /** ECMAScript white space and line terminators: the set matched by the
      regular-expression class `\s` and removed by `String.prototype.trim`. */
  predicate IsSpace(c: char)
  {
    || c == '\t' || c == '\n' || c == '\U{0B}' || c == '\U{0C}' || c == '\r'
    || c == ' ' || c == '\U{A0}' || c == '\U{1680}'
    || ('\U{2000}' <= c <= '\U{200A}')
    || c == '\U{2028}' || c == '\U{2029}' || c == '\U{202F}' || c == '\U{205F}'
    || c == '\U{3000}' || c == '\U{FEFF}'
  }

  predicate AllSpace(s: string)
  {
    forall i :: 0 <= i < |s| ==> IsSpace(s[i])
  }

  /** A word: a non-empty run without white space. */
  predicate IsWord(w: string)
  {
    w != [] && forall i :: 0 <= i < |w| ==> !IsSpace(w[i])
  }

  /** Length of the white-space run that starts `s`. */
  function LeadingSpace(s: string): (n: nat)
    ensures n <= |s| && AllSpace(s[..n])
    ensures n < |s| ==> !IsSpace(s[n])
  {
    if s == [] || !IsSpace(s[0]) then 0
    else
      var n := 1 + LeadingSpace(s[1..]);
      assert forall i :: 1 <= i < n ==> s[..n][i] == s[1..][..n - 1][i - 1];
      n
  }

  /** Length of the white-space run that ends `s`. */
  function TrailingSpace(s: string): (n: nat)
    ensures n <= |s| && AllSpace(s[|s| - n..])
    ensures n < |s| ==> !IsSpace(s[|s| - n - 1])
  {
    if s == [] || !IsSpace(s[|s| - 1]) then 0
    else
      1 + TrailingSpace(s[..|s| - 1])
  }

  /** Length of the word that starts `s` (0 when `s` starts with white space). */
  function LeadingWord(s: string): (n: nat)
    ensures n <= |s|
    ensures forall i :: 0 <= i < n ==> !IsSpace(s[i])
    ensures n < |s| ==> IsSpace(s[n])
  {
    if s == [] || IsSpace(s[0]) then 0 else 1 + LeadingWord(s[1..])
  }

  /** `String.prototype.trim`: the input with its leading and trailing white
      space removed and nothing else. */
  function Trim(s: string): (r: string)
    ensures r == [] || (!IsSpace(r[0]) && !IsSpace(r[|r| - 1]))
    ensures exists a, b :: 0 <= a <= b <= |s| && r == s[a..b] && AllSpace(s[..a]) && AllSpace(s[b..])
  {
    var a := LeadingSpace(s);
    var t := s[a..];
    var k := TrailingSpace(t);
    var b := a + |t| - k;
    assert t[..|t| - k] == s[a..b];
    assert s[b..] == t[|t| - k..];
    t[..|t| - k]
  }

  /** `s.split(/\s+/)`: the pieces between maximal white-space runs; a run
      at either end yields an empty piece there, and "" gives [""]. */
  function SplitSpace(s: string): (parts: seq<string>)
    ensures |parts| >= 1
    ensures s == [] ==> parts == [[]]
    ensures s != [] && !IsSpace(s[0]) ==> parts[0] != []
    ensures s != [] && !IsSpace(s[|s| - 1]) ==> parts[|parts| - 1] != []
    decreases |s|
  {
    var n := LeadingWord(s);
    if n == |s| then [s]
    else
      var rest := s[n..];
      var k := LeadingSpace(rest);
      assert k >= 1;
      if k == |rest| then
        assert IsSpace(s[|s| - 1]) by { assert s[|s| - 1] == rest[..k][|rest| - 1]; }
        [s[..n]] + SplitSpace(rest[k..])
      else
        assert s[|s| - 1] == rest[k..][|rest[k..]| - 1];
        [s[..n]] + SplitSpace(rest[k..])
  }

  /** ASCII upper-casing of one character; others are left as they are. */
  function UpperChar(c: char): char
  {
    if 'a' <= c <= 'z' then (c as int - 32) as char else c
  }

  predicate IsLowerAscii(c: char)
  {
    'a' <= c <= 'z'
  }

  /** `toUpperCase` restricted to ASCII letters. */
  function ToUpper(s: string): (r: string)
    ensures |r| == |s|
    ensures forall i :: 0 <= i < |s| ==> r[i] == UpperChar(s[i])
    ensures forall i :: 0 <= i < |r| ==> !IsLowerAscii(r[i])
  {
    if s == [] then [] else [UpperChar(s[0])] + ToUpper(s[1..])
  }

  /** `str.slice(0, 2)`: at most the first two characters. */
  function FirstTwo(s: string): (r: string)
    ensures r <= s && |r| <= 2
    ensures |r| == 2 || r == s
  {
    if |s| <= 2 then s else s[..2]
  }

  /** The part of `getInitials` that picks characters from the split name. */
  function PickInitials(parts: seq<string>): (r: string)
    requires |parts| >= 1
    requires |parts| > 1 ==> parts[0] != [] && parts[|parts| - 1] != []
    ensures |r| <= 2
  {
    if |parts| == 1 then FirstTwo(parts[0])
    else [parts[0][0], parts[|parts| - 1][0]]
  }

  /** `getInitials(name)` as the script computes it. */
  function GetInitials(name: string): (r: string)
    ensures |r| <= 2
    ensures forall i :: 0 <= i < |r| ==> !IsLowerAscii(r[i])
  {
    if name == "" then "" else ToUpper(PickInitials(SplitSpace(Trim(name))))
  }

  // ---------------------------------------------------------------------
  // Reference: the words of a name, ignoring every white-space run.
  // ---------------------------------------------------------------------

  /** The maximal non-white-space runs of `s`, in order. */
  function Words(s: string): (ws: seq<string>)
    ensures forall i :: 0 <= i < |ws| ==> IsWord(ws[i])
    decreases |s|
  {
    if s == [] then []
    else if IsSpace(s[0]) then Words(s[1..])
    else
      var n := LeadingWord(s);
      [s[..n]] + Words(s[n..])
  }

  /** The initials the helper promises, read off the words of the name. */
  function InitialsOf(ws: seq<string>): (r: string)
    requires forall i :: 0 <= i < |ws| ==> IsWord(ws[i])
  {
    if |ws| == 0 then ""
    else if |ws| == 1 then ToUpper(FirstTwo(ws[0]))
    else
      assert IsWord(ws[0]) && IsWord(ws[|ws| - 1]);
      ToUpper([ws[0][0], ws[|ws| - 1][0]])
  }

  lemma {:induction false} WordsAfterSpace(p: string, s: string)
    requires AllSpace(p)
    ensures Words(p + s) == Words(s)
    decreases |p|
  {
    if p != [] {
      assert (p + s)[0] == p[0];
      assert (p + s)[1..] == p[1..] + s;
      WordsAfterSpace(p[1..], s);
    } else {
      assert p + s == s;
    }
  }

  lemma {:induction false} WordsOfSpace(q: string)
    requires AllSpace(q)
    ensures Words(q) == []
  {
    WordsAfterSpace(q, []);
    assert q + [] == q;
  }

  lemma {:induction false} LeadingWordBeforeSpace(s: string, q: string)
    requires q == [] || IsSpace(q[0])
    ensures LeadingWord(s + q) == LeadingWord(s)
    decreases |s|
  {
    if s == [] {
      assert s + q == q;
    } else {
      assert (s + q)[0] == s[0];
      assert (s + q)[1..] == s[1..] + q;
      LeadingWordBeforeSpace(s[1..], q);
    }
  }

  lemma {:induction false} WordsBeforeSpace(s: string, q: string)
    requires AllSpace(q)
    ensures Words(s + q) == Words(s)
    decreases |s|
  {
    if s == [] {
      assert s + q == q;
      WordsOfSpace(q);
    } else if IsSpace(s[0]) {
      assert (s + q)[0] == s[0];
      assert (s + q)[1..] == s[1..] + q;
      WordsBeforeSpace(s[1..], q);
    } else {
      assert (s + q)[0] == s[0];
      LeadingWordBeforeSpace(s, q);
      var n := LeadingWord(s);
      assert (s + q)[..n] == s[..n];
      assert (s + q)[n..] == s[n..] + q;
      WordsBeforeSpace(s[n..], q);
    }
  }

  lemma WordsDropLeadingSpace(s: string)
    ensures Words(s[LeadingSpace(s)..]) == Words(s)
  {
    var k := LeadingSpace(s);
    assert s == s[..k] + s[k..];
    WordsAfterSpace(s[..k], s[k..]);
  }

  lemma WordsDropTrailingSpace(t: string)
    ensures Words(t[..|t| - TrailingSpace(t)]) == Words(t)
  {
    var j := |t| - TrailingSpace(t);
    assert t == t[..j] + t[j..];
    WordsBeforeSpace(t[..j], t[j..]);
  }

  /** Trim removes only white space, so the words are those of the name. */
  lemma WordsOfTrim(s: string)
    ensures Words(Trim(s)) == Words(s)
  {
    WordsDropLeadingSpace(s);
    WordsDropTrailingSpace(s[LeadingSpace(s)..]);
  }

  /** On a trimmed, non-empty string, splitting on white-space runs yields
      exactly its words. */
  lemma {:induction false} SplitSpaceIsWords(t: string)
    requires t != [] && !IsSpace(t[0]) && !IsSpace(t[|t| - 1])
    ensures SplitSpace(t) == Words(t)
    decreases |t|
  {
    var n := LeadingWord(t);
    if n == |t| {
      assert t[n..] == [] && t[..n] == t;
    } else {
      var rest := t[n..];
      var k := LeadingSpace(rest);
      assert rest == rest[..k] + rest[k..];
      WordsAfterSpace(rest[..k], rest[k..]);
      assert t[|t| - 1] == rest[k..][|rest[k..]| - 1];
      SplitSpaceIsWords(rest[k..]);
    }
  }

  // ---------------------------------------------------------------------
  // What getInitials promises.
  // ---------------------------------------------------------------------

  /** getInitials reads only the words of the name: nothing for a blank
      name, the first two characters of a lone word, otherwise the first
      characters of the first and last words, upper-cased. */
  lemma GetInitialsIsInitialsOfWords(name: string)
    ensures GetInitials(name) == InitialsOf(Words(name))
  {
    if name != "" {
      var t := Trim(name);
      var ws := Words(name);
      WordsOfTrim(name);
      if t == [] {
        assert ws == [];
        assert SplitSpace(t) == [[]];
      } else {
        SplitSpaceIsWords(t);
        assert SplitSpace(t) == ws;
      }
    }
  }

  /** An empty or all-white-space name has no initials. */
  lemma GetInitialsBlank(name: string)
    requires AllSpace(name)
    ensures GetInitials(name) == ""
  {
    GetInitialsIsInitialsOfWords(name);
    WordsOfSpace(name);
  }

  /** White space around the name does not change its initials. */
  lemma GetInitialsIgnoresPadding(p: string, name: string, q: string)
    requires AllSpace(p) && AllSpace(q)
    ensures GetInitials(p + name + q) == GetInitials(name)
  {
    GetInitialsIsInitialsOfWords(p + name + q);
    GetInitialsIsInitialsOfWords(name);
    WordsBeforeSpace(p + name, q);
    WordsAfterSpace(p, name);
  }

  lemma WordsOfWord(w: string)
    requires IsWord(w)
    ensures Words(w) == [w]
  {
    LeadingWordBeforeSpace(w, []);
    assert w + [] == w;
    assert w[..|w|] == w && w[|w|..] == [];
  }

  /** A single word gives its first one or two characters, upper-cased. */
  lemma GetInitialsOneWord(w: string)
    requires IsWord(w)
    ensures GetInitials(w) == ToUpper(if |w| <= 2 then w else w[..2])
  {
    GetInitialsIsInitialsOfWords(w);
    WordsOfWord(w);
  }

  /** A white-space character separates the words on either side of it. */
  lemma {:induction false} WordsAroundSpace(a: string, c: char, b: string)
    requires IsSpace(c)
    ensures Words(a + [c] + b) == Words(a) + Words(b)
    decreases |a|
  {
    var s := a + [c] + b;
    if a == [] {
      assert s[0] == c && s[1..] == b;
    } else if IsSpace(a[0]) {
      assert s[0] == a[0];
      assert s[1..] == a[1..] + [c] + b;
      WordsAroundSpace(a[1..], c, b);
    } else {
      assert s[0] == a[0];
      assert s == a + ([c] + b);
      LeadingWordBeforeSpace(a, [c] + b);
      var n := LeadingWord(a);
      assert s[..n] == a[..n];
      assert s[n..] == a[n..] + [c] + b;
      WordsAroundSpace(a[n..], c, b);
    }
  }

  /** With two or more words, only the first and the last count. */
  lemma GetInitialsFirstAndLast(first: string, middle: string, last: string)
    requires IsWord(first) && IsWord(last)
    ensures GetInitials(first + " " + middle + " " + last) == ToUpper([first[0], last[0]])
  {
    var name := first + " " + middle + " " + last;
    WordsAroundSpace(first, ' ', middle + " " + last);
    assert name == first + [' '] + (middle + " " + last);
    WordsAroundSpace(middle, ' ', last);
    assert middle + " " + last == middle + [' '] + last;
    WordsOfWord(first);
    WordsOfWord(last);
    var ws := Words(name);
    assert ws == [first] + Words(middle) + [last];
    GetInitialsIsInitialsOfWords(name);
  }
}
