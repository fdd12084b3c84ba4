/**
 * `html.escape(s)` of the Python standard library with its default `quote=True`, as
 * generate_index.py uses it for every piece of text it puts into a page. The library
 * function is a chain of five `str.replace` calls; EscapeChain models that chain and
 * Escape the equivalent character-by-character rewriting.
 */
module Html {

  // ---------------------------------------------------------------- str.replace with a one-character pattern

  /** `s.replace(c, rep)`: every occurrence of `c`, left to right, becomes `rep`. */
  function ReplaceAll(s: string, c: char, rep: string): (r: string)
    ensures c !in rep ==> c !in r
  {
    if s == [] then []
    else (if s[0] == c then rep else [s[0]]) + ReplaceAll(s[1..], c, rep)
  }

  lemma {:induction false} ReplaceAllAppend(a: string, b: string, c: char, rep: string)
    ensures ReplaceAll(a + b, c, rep) == ReplaceAll(a, c, rep) + ReplaceAll(b, c, rep)
    decreases |a|
  {
    if a == [] {
      assert a + b == b;
    } else {
      assert (a + b)[1..] == a[1..] + b;
      ReplaceAllAppend(a[1..], b, c, rep);
    }
  }

  /** Replacing a character that does not occur changes nothing. */
  lemma {:induction false} ReplaceAllAbsent(s: string, c: char, rep: string)
    requires c !in s
    ensures ReplaceAll(s, c, rep) == s
    decreases |s|
  {
    if s != [] {
      assert c !in s[1..];
      ReplaceAllAbsent(s[1..], c, rep);
    }
  }

  // ---------------------------------------------------------------- the escape

  /** The five replacements of `html.escape`, applied in the library's order (`&` first). */
  function EscapeChain(s: string): string {
    var s1 := ReplaceAll(s, '&', "&amp;");
    var s2 := ReplaceAll(s1, '<', "&lt;");
    var s3 := ReplaceAll(s2, '>', "&gt;");
    var s4 := ReplaceAll(s3, '"', "&quot;");
    ReplaceAll(s4, '\'', "&#x27;")
  }

  /** The characters `html.escape` rewrites. */
  predicate Special(c: char) {
    c == '&' || c == '<' || c == '>' || c == '"' || c == '\''
  }

  /** What one character becomes. */
  function EscapeChar(c: char): (r: string)
    ensures Special(c) <==> r != [c]
    ensures r != [] && (r[0] == '&' <==> Special(c))
  {
    match c
    case '&' => "&amp;"
    case '<' => "&lt;"
    case '>' => "&gt;"
    case '"' => "&quot;"
    case '\'' => "&#x27;"
    case _ => [c]
  }

  /** `html.escape(s)`, one character at a time. */
  function Escape(s: string): string {
    if s == [] then [] else EscapeChar(s[0]) + Escape(s[1..])
  }

  lemma ReplaceAllOne(x: char, c: char, rep: string)
    ensures ReplaceAll([x], c, rep) == if x == c then rep else [x]
  {
    assert ReplaceAll([x], c, rep) == (if x == c then rep else [x]) + ReplaceAll([], c, rep);
  }

  /** The replacements after `&` leave text without `<`, `>`, `"` and `'` alone. */
  lemma LaterStepsAbsent(x: string)
    requires '<' !in x && '>' !in x && '"' !in x && '\'' !in x
    ensures ReplaceAll(ReplaceAll(ReplaceAll(ReplaceAll(x, '<', "&lt;"), '>', "&gt;"), '"', "&quot;"), '\'', "&#x27;") == x
  {
    ReplaceAllAbsent(x, '<', "&lt;");
    ReplaceAllAbsent(x, '>', "&gt;");
    ReplaceAllAbsent(x, '"', "&quot;");
    ReplaceAllAbsent(x, '\'', "&#x27;");
  }

  /** The chain on a character that is not special: every step leaves it alone. */
  lemma EscapeChainPlainChar(c: char)
    requires !Special(c)
    ensures EscapeChain([c]) == [c]
  {
    ReplaceAllOne(c, '&', "&amp;");
    ReplaceAllOne(c, '<', "&lt;");
    ReplaceAllOne(c, '>', "&gt;");
    ReplaceAllOne(c, '"', "&quot;");
    ReplaceAllOne(c, '\'', "&#x27;");
  }

  /** The chain on `&`: the first step rewrites it and the later ones keep the result. */
  lemma EscapeChainAmp(c: char)
    requires c == '&'
    ensures EscapeChain([c]) == EscapeChar(c)
  {
    ReplaceAllOne(c, '&', "&amp;");
    LaterStepsAbsent("&amp;");
  }

  /** The chain on `<`: the step before leaves it alone, its own rewrites it, the later ones keep the result. */
  lemma EscapeChainLt(c: char)
    requires c == '<'
    ensures EscapeChain([c]) == EscapeChar(c)
  {
    ReplaceAllOne(c, '&', "&amp;");
    ReplaceAllOne(c, '<', "&lt;");
    StepsAfterLtAbsent("&lt;");
  }

  /** The replacements after `<` leave text without `>`, `"` and `'` alone. */
  lemma StepsAfterLtAbsent(x: string)
    requires '>' !in x && '"' !in x && '\'' !in x
    ensures ReplaceAll(ReplaceAll(ReplaceAll(x, '>', "&gt;"), '"', "&quot;"), '\'', "&#x27;") == x
  {
    ReplaceAllAbsent(x, '>', "&gt;");
    ReplaceAllAbsent(x, '"', "&quot;");
    ReplaceAllAbsent(x, '\'', "&#x27;");
  }

  lemma EscapeChainGt(c: char)
    requires c == '>'
    ensures EscapeChain([c]) == EscapeChar(c)
  {
    ReplaceAllOne(c, '&', "&amp;");
    ReplaceAllOne(c, '<', "&lt;");
    ReplaceAllOne(c, '>', "&gt;");
    var r := "&gt;";
    ReplaceAllAbsent(r, '"', "&quot;");
    ReplaceAllAbsent(r, '\'', "&#x27;");
  }

  lemma EscapeChainQuot(c: char)
    requires c == '"'
    ensures EscapeChain([c]) == EscapeChar(c)
  {
    ReplaceAllOne(c, '&', "&amp;");
    ReplaceAllOne(c, '<', "&lt;");
    ReplaceAllOne(c, '>', "&gt;");
    ReplaceAllOne(c, '"', "&quot;");
    ReplaceAllAbsent("&quot;", '\'', "&#x27;");
  }

  lemma EscapeChainApos(c: char)
    requires c == '\''
    ensures EscapeChain([c]) == EscapeChar(c)
  {
    ReplaceAllOne(c, '&', "&amp;");
    ReplaceAllOne(c, '<', "&lt;");
    ReplaceAllOne(c, '>', "&gt;");
    ReplaceAllOne(c, '"', "&quot;");
    ReplaceAllOne(c, '\'', "&#x27;");
  }

  /** The chain on a special character is the escape of that character. */
  lemma EscapeChainSpecialChar(c: char)
    requires Special(c)
    ensures EscapeChain([c]) == EscapeChar(c)
  {
    if c == '&' {
      EscapeChainAmp(c);
    } else if c == '<' {
      EscapeChainLt(c);
    } else if c == '>' {
      EscapeChainGt(c);
    } else if c == '"' {
      EscapeChainQuot(c);
    } else {
      EscapeChainApos(c);
    }
  }

  /** The chain on a single character is the escape of that character. */
  lemma EscapeChainChar(c: char)
    ensures EscapeChain([c]) == EscapeChar(c)
  {
    if Special(c) {
      EscapeChainSpecialChar(c);
    } else {
      EscapeChainPlainChar(c);
    }
  }

  lemma EscapeChainAppend(a: string, b: string)
    ensures EscapeChain(a + b) == EscapeChain(a) + EscapeChain(b)
  {
    ReplaceAllAppend(a, b, '&', "&amp;");
    var a1, b1 := ReplaceAll(a, '&', "&amp;"), ReplaceAll(b, '&', "&amp;");
    ReplaceAllAppend(a1, b1, '<', "&lt;");
    var a2, b2 := ReplaceAll(a1, '<', "&lt;"), ReplaceAll(b1, '<', "&lt;");
    ReplaceAllAppend(a2, b2, '>', "&gt;");
    var a3, b3 := ReplaceAll(a2, '>', "&gt;"), ReplaceAll(b2, '>', "&gt;");
    ReplaceAllAppend(a3, b3, '"', "&quot;");
    var a4, b4 := ReplaceAll(a3, '"', "&quot;"), ReplaceAll(b3, '"', "&quot;");
    ReplaceAllAppend(a4, b4, '\'', "&#x27;");
  }

  /** The library's replace chain and the per-character escape agree on every string. */
  lemma {:induction false} EscapeChainIsEscape(s: string)
    ensures EscapeChain(s) == Escape(s)
    decreases |s|
  {
    if s != [] {
      assert s == [s[0]] + s[1..];
      EscapeChainAppend([s[0]], s[1..]);
      EscapeChainChar(s[0]);
      EscapeChainIsEscape(s[1..]);
    }
  }

  // ---------------------------------------------------------------- safety

  /** `s` begins with `p`. */
  predicate HasPrefix(s: string, p: string) {
    |p| <= |s| && forall i | 0 <= i < |p| :: s[i] == p[i]
  }

  /** The five character references `html.escape` produces. */
  predicate IsEntityStart(t: string) {
    HasPrefix(t, "&amp;") || HasPrefix(t, "&lt;") || HasPrefix(t, "&gt;") || HasPrefix(t, "&quot;") || HasPrefix(t, "&#x27;")
  }

  predicate EntityAt(s: string, i: nat)
    requires i < |s|
  {
    IsEntityStart(s[i..])
  }

  /**
   * Text that cannot be read as markup: no raw `<`, `>`, `"` or `'`, and every `&` starts
   * one of the character references above.
   */
  predicate Safe(s: string) {
    forall i | 0 <= i < |s| :: s[i] != '<' && s[i] != '>' && s[i] != '"' && s[i] != '\'' && (s[i] == '&' ==> EntityAt(s, i))
  }

  lemma SafeAppend(a: string, b: string)
    requires Safe(a) && Safe(b)
    ensures Safe(a + b)
  {
    forall i | 0 <= i < |a + b| && (a + b)[i] == '&'
      ensures EntityAt(a + b, i)
    {
      if i < |a| {
        assert EntityAt(a, i);
        assert (a + b)[i..] == a[i..] + b;
      } else {
        assert EntityAt(b, i - |a|);
        assert (a + b)[i..] == b[i - |a|..];
      }
    }
  }

  lemma SafeEscapeChar(c: char)
    ensures Safe(EscapeChar(c))
  {
    var r := EscapeChar(c);
    if Special(c) {
      assert EntityAt(r, 0);
      assert forall i | 0 < i < |r| :: r[i] != '&';
    }
  }

  /** Whatever the input, the escaped text is safe. */
  lemma {:induction false} EscapeIsSafe(s: string)
    ensures Safe(Escape(s))
    decreases |s|
  {
    if s != [] {
      SafeEscapeChar(s[0]);
      EscapeIsSafe(s[1..]);
      SafeAppend(EscapeChar(s[0]), Escape(s[1..]));
    } else {
      assert Escape(s) == [];
    }
  }

  /** Text without the five special characters is left as it is. */
  lemma {:induction false} EscapePlain(s: string)
    requires forall i | 0 <= i < |s| :: !Special(s[i])
    ensures Escape(s) == s
    decreases |s|
  {
    if s != [] {
      EscapePlain(s[1..]);
    }
  }

  /** The characters the character references are made of. */
  predicate EntityText(c: char) {
    || c == '&' || c == ';' || c == '#' || c == 'a' || c == 'm' || c == 'p' || c == 'l'
    || c == 't' || c == 'g' || c == 'q' || c == 'u' || c == 'o' || c == 'x' || c == '2' || c == '7'
  }

  /** Escaping brings in no character other than those of the character references. */
  lemma {:induction false} EscapeAvoids(s: string, c: char)
    requires !EntityText(c) && c !in s
    ensures c !in Escape(s)
    decreases |s|
  {
    if s != [] {
      assert c !in s[1..];
      EscapeAvoids(s[1..], c);
      assert c != s[0];
      assert c !in EscapeChar(s[0]);
    }
  }

  // ---------------------------------------------------------------- the inverse

  /** Decodes the five character references back to their characters; everything else is kept. */
  function Unescape(s: string): string
    decreases |s|
  {
    if s == [] then []
    else if HasPrefix(s, "&amp;") then "&" + Unescape(s[5..])
    else if HasPrefix(s, "&lt;") then "<" + Unescape(s[4..])
    else if HasPrefix(s, "&gt;") then ">" + Unescape(s[4..])
    else if HasPrefix(s, "&quot;") then "\"" + Unescape(s[6..])
    else if HasPrefix(s, "&#x27;") then "'" + Unescape(s[6..])
    else [s[0]] + Unescape(s[1..])
  }

  lemma UnescapeStep(c: char, t: string)
    ensures Unescape(EscapeChar(c) + t) == [c] + Unescape(t)
  {
    var e := EscapeChar(c);
    var s := e + t;
    assert s[|e|..] == t;
    assert HasPrefix(s, e);
    if c == '&' {
      assert e == "&amp;";
    } else if c == '<' {
      assert e == "&lt;";
      assert !HasPrefix(s, "&amp;") by { assert s[1] == 'l'; }
    } else if c == '>' {
      assert e == "&gt;";
      assert !HasPrefix(s, "&amp;") by { assert s[1] == 'g'; }
      assert !HasPrefix(s, "&lt;") by { assert s[1] == 'g'; }
    } else if c == '"' {
      assert e == "&quot;";
      assert s[1] == 'q';
    } else if c == '\'' {
      assert e == "&#x27;";
      assert s[1] == '#';
    } else {
      assert e == [c] && s[0] == c;
    }
  }

  /** Escaping loses nothing: unescaping gives the original text back. */
  lemma {:induction false} UnescapeEscape(s: string)
    ensures Unescape(Escape(s)) == s
    decreases |s|
  {
    if s != [] {
      UnescapeStep(s[0], Escape(s[1..]));
      UnescapeEscape(s[1..]);
    }
  }

  /** Different texts are escaped differently. */
  lemma EscapeInjective(a: string, b: string)
    requires Escape(a) == Escape(b)
    ensures a == b
  {
    UnescapeEscape(a);
    UnescapeEscape(b);
  }
}
