/**
 * `canonicalize` of generate_index.py: the package-name normalisation of PEP 503
 * ("Normalized Names"), done as three chained steps: lower-case, turn every run of
 * `.`/`_` into `-`, then squeeze every run of `-` into one `-`.
 */
module Canonical {
  import opened Text

  /** The characters of PEP 503's one-pass rule `[-_.]+`. */
  const Separators: set<char> := {'-', '_', '.'}
  /** The class of the source's first substitution, `[._]+`. */
  const DotOrUnderscore: set<char> := {'.', '_'}
  /** The class of the source's second substitution, `-+`. */
  const Hyphen: set<char> := {'-'}

  /** Drops the run of `seps` characters at the start of `s` (the extent of one regex match). */
  function DropRun(s: string, seps: set<char>): (r: string)
    ensures |r| <= |s|
  {
    if s != [] && s[0] in seps then DropRun(s[1..], seps) else s
  }

  /**
   * `re.sub("[seps]+", "-", s)`: every maximal run of characters from `seps` becomes a
   * single `-`; every other character is kept.
   */
  function CollapseRuns(s: string, seps: set<char>): string
    decreases |s|
  {
    if s == [] then []
    else if s[0] in seps then "-" + CollapseRuns(DropRun(s, seps), seps)
    else [s[0]] + CollapseRuns(s[1..], seps)
  }

  /** DropRun removes exactly the longest prefix made of `seps` characters. */
  lemma {:induction false} DropRunShape(s: string, seps: set<char>)
    ensures var r := DropRun(s, seps);
      && r == s[|s| - |r|..]
      && (forall i | 0 <= i < |s| - |r| :: s[i] in seps)
      && (r == [] || r[0] !in seps)
    decreases |s|
  {
    if s != [] && s[0] in seps {
      DropRunShape(s[1..], seps);
    }
  }

  /**
   * What a substitution leaves: empty exactly when its input is, never longer, the same
   * first character unless that one starts a run, only `-` or unchanged non-`seps`
   * characters, and no two `seps` characters side by side.
   */
  lemma {:induction false} CollapseRunsShape(s: string, seps: set<char>)
    ensures var r := CollapseRuns(s, seps);
      && |r| <= |s|
      && (r == [] <==> s == [])
      && (s != [] ==> r[0] == (if s[0] in seps then '-' else s[0]))
      && (forall i | 0 <= i < |r| :: r[i] == '-' || (r[i] !in seps && r[i] in s))
      && (forall i | 0 <= i < |r| - 1 :: !(r[i] in seps && r[i + 1] in seps))
    decreases |s|
  {
    if s == [] {
    } else if s[0] in seps {
      var d := DropRun(s, seps);
      DropRunShape(s, seps);
      CollapseRunsShape(d, seps);
      assert forall c | c in d :: c in s;
    } else {
      CollapseRunsShape(s[1..], seps);
    }
  }

  /** `canonicalize(name)`: lower-case, then `[._]+` to `-`, then `-+` to `-`. */
  function Canonicalize(name: string): string {
    CollapseRuns(CollapseRuns(Lower(name), DotOrUnderscore), Hyphen)
  }

  /**
   * A canonical name has no upper-case ASCII letter, no `.`, no `_` and never two `-` in a
   * row; it is empty exactly when the name is, and never longer than it.
   */
  lemma CanonicalShape(name: string)
    ensures var r := Canonicalize(name);
      && (forall i | 0 <= i < |r| :: r[i] != '.' && r[i] != '_' && !IsUpperAscii(r[i]))
      && (forall i | 0 <= i < |r| - 1 :: !(r[i] == '-' && r[i + 1] == '-'))
      && |r| <= |name| && (r == [] <==> name == [])
  {
    var lowered := Lower(name);
    var dashed := CollapseRuns(lowered, DotOrUnderscore);
    CollapseRunsShape(lowered, DotOrUnderscore);
    CollapseRunsShape(dashed, Hyphen);
    assert forall c | c in lowered :: !IsUpperAscii(c);
    assert forall c | c in dashed :: c != '.' && c != '_' && !IsUpperAscii(c);
  }

  /** A name without whitespace has a canonical name without whitespace. */
  lemma CanonicalizeNoSpace(name: string)
    requires forall i | 0 <= i < |name| :: !IsSpace(name[i])
    ensures forall i | 0 <= i < |Canonicalize(name)| :: !IsSpace(Canonicalize(name)[i])
  {
    var lowered := Lower(name);
    var dashed := CollapseRuns(lowered, DotOrUnderscore);
    CollapseRunsShape(lowered, DotOrUnderscore);
    CollapseRunsShape(dashed, Hyphen);
    assert forall c | c in lowered :: !IsSpace(c);
    assert forall c | c in dashed :: !IsSpace(c);
  }

  /** PEP 503's own rule, `re.sub(r"[-_.]+", "-", name).lower()`. */
  function Pep503Normalize(name: string): string {
    Lower(CollapseRuns(name, Separators))
  }

  // ---------------------------------------------------------------- equivalence with PEP 503

  lemma {:induction false} DropRunTwice(s: string)
    ensures DropRun(DropRun(s, DotOrUnderscore), Separators) == DropRun(s, Separators)
    decreases |s|
  {
    if s != [] && s[0] in DotOrUnderscore {
      DropRunTwice(s[1..]);
    }
  }

  /** After the first substitution, skipping a leading run of `-` is the same as skipping a run of any separator first. */
  lemma {:induction false} DropHyphensAfterFirstPass(s: string)
    ensures DropRun(CollapseRuns(s, DotOrUnderscore), Hyphen)
         == CollapseRuns(DropRun(s, Separators), DotOrUnderscore)
    decreases |s|
  {
    if s == [] {
    } else if s[0] in DotOrUnderscore {
      var d := DropRun(s, DotOrUnderscore);
      assert CollapseRuns(s, DotOrUnderscore) == "-" + CollapseRuns(d, DotOrUnderscore);
      DropHyphensAfterFirstPass(d);
      DropRunTwice(s);
    } else if s[0] == '-' {
      assert CollapseRuns(s, DotOrUnderscore) == [s[0]] + CollapseRuns(s[1..], DotOrUnderscore);
      DropHyphensAfterFirstPass(s[1..]);
    } else {
      assert s[0] !in Separators;
    }
  }

  /** The source's two substitutions together are PEP 503's single substitution. */
  lemma {:induction false} TwoPassesAreOne(s: string)
    ensures CollapseRuns(CollapseRuns(s, DotOrUnderscore), Hyphen) == CollapseRuns(s, Separators)
    decreases |s|
  {
    if s == [] {
    } else if s[0] in Separators {
      var t := CollapseRuns(s, DotOrUnderscore);
      assert t[0] == '-';
      DropHyphensAfterFirstPass(s);
      TwoPassesAreOne(DropRun(s, Separators));
    } else {
      TwoPassesAreOne(s[1..]);
    }
  }

  lemma LowerCharSeparator(c: char)
    ensures LowerChar(c) in Separators <==> c in Separators
    ensures c in Separators ==> LowerChar(c) == c
  {
  }

  lemma {:induction false} LowerDropRun(s: string)
    ensures DropRun(Lower(s), Separators) == Lower(DropRun(s, Separators))
    decreases |s|
  {
    if s != [] {
      var l := Lower(s);
      LowerCharSeparator(s[0]);
      assert l[0] == LowerChar(s[0]) && l[1..] == Lower(s[1..]);
      if s[0] in Separators {
        LowerDropRun(s[1..]);
      }
    }
  }

  /** Lower-casing commutes with the separator substitution, since no separator is a letter. */
  lemma {:induction false} LowerCollapse(s: string)
    ensures CollapseRuns(Lower(s), Separators) == Lower(CollapseRuns(s, Separators))
    decreases |s|
  {
    if s != [] {
      var l := Lower(s);
      LowerCharSeparator(s[0]);
      assert l[0] == LowerChar(s[0]) && l[1..] == Lower(s[1..]);
      if s[0] in Separators {
        var d := DropRun(s, Separators);
        LowerDropRun(s);
        LowerCollapse(d);
        assert CollapseRuns(l, Separators) == "-" + CollapseRuns(Lower(d), Separators);
        assert CollapseRuns(s, Separators) == "-" + CollapseRuns(d, Separators);
        assert Lower("-" + CollapseRuns(d, Separators)) == "-" + Lower(CollapseRuns(d, Separators));
      } else {
        LowerCollapse(s[1..]);
        assert CollapseRuns(l, Separators) == [LowerChar(s[0])] + CollapseRuns(Lower(s[1..]), Separators);
        assert CollapseRuns(s, Separators) == [s[0]] + CollapseRuns(s[1..], Separators);
        assert Lower([s[0]] + CollapseRuns(s[1..], Separators))
            == [LowerChar(s[0])] + Lower(CollapseRuns(s[1..], Separators));
      }
    }
  }

  /** `canonicalize` computes exactly PEP 503's normalised name. */
  lemma CanonicalizeIsPep503(name: string)
    ensures Canonicalize(name) == Pep503Normalize(name)
  {
    TwoPassesAreOne(Lower(name));
    LowerCollapse(name);
  }

  // ---------------------------------------------------------------- idempotence

  /** A substitution finds nothing to do in a string whose `seps` characters are lone `-`. */
  lemma {:induction false} CollapseUnchanged(s: string, seps: set<char>)
    requires forall i | 0 <= i < |s| :: s[i] in seps ==> s[i] == '-'
    requires forall i | 0 <= i < |s| - 1 :: !(s[i] in seps && s[i + 1] in seps)
    ensures CollapseRuns(s, seps) == s
    decreases |s|
  {
    if s == [] {
    } else if s[0] in seps {
      assert DropRun(s, seps) == s[1..] by {
        assert s[1..] == [] || s[1..][0] !in seps;
      }
      CollapseUnchanged(s[1..], seps);
    } else {
      CollapseUnchanged(s[1..], seps);
    }
  }

  lemma LowerUnchanged(s: string)
    requires forall i | 0 <= i < |s| :: !IsUpperAscii(s[i])
    ensures Lower(s) == s
  {
  }

  /** Canonicalising a canonical name changes nothing. */
  lemma CanonicalizeIdempotent(name: string)
    ensures Canonicalize(Canonicalize(name)) == Canonicalize(name)
  {
    var c := Canonicalize(name);
    CanonicalShape(name);
    LowerUnchanged(c);
    CollapseUnchanged(c, DotOrUnderscore);
    CollapseUnchanged(c, Hyphen);
  }

  // ---------------------------------------------------------------- case and separators

  lemma LowerOfUpper(s: string)
    ensures Lower(Upper(s)) == Lower(s)
  {
  }

  /** Case does not matter: a name and its upper-cased form have the same canonical name. */
  lemma CanonicalizeIgnoresCase(name: string)
    ensures Canonicalize(Upper(name)) == Canonicalize(name)
  {
    LowerOfUpper(name);
  }

  /** The characters of `s` that are not separators, in order. */
  function Bare(s: string): (r: string)
    ensures forall i | 0 <= i < |r| :: r[i] !in Separators
  {
    if s == [] then [] else (if s[0] in Separators then [] else [s[0]]) + Bare(s[1..])
  }

  lemma {:induction false} BareDropRun(s: string, seps: set<char>)
    requires seps <= Separators
    ensures Bare(DropRun(s, seps)) == Bare(s)
    decreases |s|
  {
    if s != [] && s[0] in seps {
      BareDropRun(s[1..], seps);
    }
  }

  lemma {:induction false} BareCollapse(s: string, seps: set<char>)
    requires seps <= Separators
    ensures Bare(CollapseRuns(s, seps)) == Bare(s)
    decreases |s|
  {
    if s == [] {
    } else if s[0] in seps {
      var d := DropRun(s, seps);
      BareDropRun(s, seps);
      BareCollapse(d, seps);
      assert CollapseRuns(s, seps) == "-" + CollapseRuns(d, seps);
    } else {
      BareCollapse(s[1..], seps);
      assert CollapseRuns(s, seps) == [s[0]] + CollapseRuns(s[1..], seps);
    }
  }

  lemma {:induction false} BareLower(s: string)
    ensures Bare(Lower(s)) == Lower(Bare(s))
    decreases |s|
  {
    if s != [] {
      assert Lower(s) == [LowerChar(s[0])] + Lower(s[1..]);
      BareLower(s[1..]);
      if s[0] !in Separators {
        assert Lower([s[0]] + Bare(s[1..])) == [LowerChar(s[0])] + Lower(Bare(s[1..]));
      }
    }
  }

  /**
   * Canonicalisation only touches case and separators: the other characters of the name
   * survive, lower-cased, in their original order.
   */
  lemma CanonicalizeKeepsOtherCharacters(name: string)
    ensures Bare(Canonicalize(name)) == Lower(Bare(name))
  {
    BareLower(name);
    BareCollapse(Lower(name), DotOrUnderscore);
    BareCollapse(CollapseRuns(Lower(name), DotOrUnderscore), Hyphen);
  }

  // ---------------------------------------------------------------- separator runs

  /** Text without separators passes through the substitution unchanged, whatever follows it. */
  lemma {:induction false} CollapsePlainPrefix(a: string, rest: string)
    requires forall i | 0 <= i < |a| :: a[i] !in Separators
    ensures CollapseRuns(a + rest, Separators) == a + CollapseRuns(rest, Separators)
    decreases |a|
  {
    if a != [] {
      assert (a + rest)[0] == a[0] && (a + rest)[1..] == a[1..] + rest;
      assert CollapseRuns(a + rest, Separators) == [a[0]] + CollapseRuns(a[1..] + rest, Separators);
      CollapsePlainPrefix(a[1..], rest);
      assert a == [a[0]] + a[1..];
    } else {
      assert a + rest == rest;
    }
  }

  /** A run of separators is consumed whole when a non-separator or the end follows it. */
  lemma {:induction false} DropRunPrefix(run: string, rest: string)
    requires forall i | 0 <= i < |run| :: run[i] in Separators
    requires forall i | 0 <= i < |rest| :: rest[i] !in Separators
    ensures DropRun(run + rest, Separators) == rest
    decreases |run|
  {
    if run != [] {
      assert (run + rest)[1..] == run[1..] + rest;
      DropRunPrefix(run[1..], rest);
    }
  }

  /** The lower-case form of a concatenation is the concatenation of the lower-case forms. */
  lemma LowerAppend(a: string, b: string)
    ensures Lower(a + b) == Lower(a) + Lower(b)
  {
  }

  /**
   * Two parts without separators, joined by any non-empty run of `.`, `_` and `-`, give the
   * lower-cased parts joined by one `-`: so `Foo__Bar`, `foo.bar`, `foo-bar` and `FOO-_.bar`
   * are all the same package.
   */
  lemma CanonicalizeSeparatorRun(a: string, run: string, b: string)
    requires forall i | 0 <= i < |a| :: a[i] !in Separators
    requires forall i | 0 <= i < |b| :: b[i] !in Separators
    requires run != [] && forall i | 0 <= i < |run| :: run[i] in Separators
    ensures Canonicalize(a + run + b) == Lower(a) + "-" + Lower(b)
  {
    CanonicalizeIsPep503(a + run + b);
    CollapseSeparatorRun(a, run, b);
    LowerJoin(a, b);
  }

  lemma LowerJoin(a: string, b: string)
    ensures Lower(a + "-" + b) == Lower(a) + "-" + Lower(b)
  {
    LowerAppend(a + "-", b);
    LowerAppend(a, "-");
  }

  /** PEP 503's substitution on `a + run + b`: the run becomes one `-`. */
  lemma CollapseSeparatorRun(a: string, run: string, b: string)
    requires forall i | 0 <= i < |a| :: a[i] !in Separators
    requires forall i | 0 <= i < |b| :: b[i] !in Separators
    requires run != [] && forall i | 0 <= i < |run| :: run[i] in Separators
    ensures CollapseRuns(a + run + b, Separators) == a + "-" + b
  {
    assert a + run + b == a + (run + b);
    CollapsePlainPrefix(a, run + b);
    DropRunPrefix(run, b);
    assert (run + b)[0] == run[0];
    assert CollapseRuns(run + b, Separators) == "-" + CollapseRuns(b, Separators);
    CollapseUnchanged(b, Separators);
  }

  // ---------------------------------------------------------------- examples

  /** Differently separated spellings of one name share a canonical name: `Foo__Bar`, ... */
  lemma CanonicalizeDoubleUnderscore(name: string)
    requires name == "Foo__Bar"
    ensures Canonicalize(name) == "foo-bar"
  {
    assert name == "Foo" + "__" + "Bar";
    CanonicalizeSeparatorRun("Foo", "__", "Bar");
    assert Lower("Foo") == "foo" && Lower("Bar") == "bar";
  }

  /** ... `foo.bar` ... */
  lemma CanonicalizeDot(name: string)
    requires name == "foo.bar"
    ensures Canonicalize(name) == "foo-bar"
  {
    assert name == "foo" + "." + "bar";
    CanonicalizeSeparatorRun("foo", ".", "bar");
    assert Lower("foo") == "foo" && Lower("bar") == "bar";
  }

  /** ... and `foo-bar` itself. */
  lemma CanonicalizeHyphen(name: string)
    requires name == "foo-bar"
    ensures Canonicalize(name) == "foo-bar"
  {
    assert name == "foo" + "-" + "bar";
    CanonicalizeSeparatorRun("foo", "-", "bar");
    assert Lower("foo") == "foo" && Lower("bar") == "bar";
  }

  /** Nothing is trimmed: a leading separator survives as a leading `-`. */
  lemma CanonicalizeKeepsLeadingSeparator(name: string)
    requires name == ".foo"
    ensures Canonicalize(name) == "-foo"
  {
    assert name == "" + "." + "foo";
    CanonicalizeSeparatorRun("", ".", "foo");
    assert Lower("") == "" && Lower("foo") == "foo";
  }
}
