/**
 * `parse_manifest` and `NAME_URL_RE` of generate_index.py: a manifest line is
 * `<name> @ <url> [; <marker>] [# <comment>]`. The regular expression is modelled by a
 * hand-written matcher (MatchLine) and by a declarative reading of the pattern
 * (LineFits); the two are proved to agree, including the backtracking of the greedy url.
 */
module Manifest {
  import opened Wrappers
  import opened Text

  /** One manifest entry: the name as written, the url, and the stripped comment ("" if none). */
  datatype Entry = Entry(name: string, url: string, comment: string)

  // ---------------------------------------------------------------- character classes

  /** The character classes of NAME_URL_RE: `\s`, `[^\s@]`, `\S`, `[^#\n]` and `.`. */
  datatype CharClass = Space | NameChar | NonSpace | NotHashOrNewline | NotNewline

  predicate InClass(c: char, k: CharClass) {
    match k
    case Space => IsSpace(c)
    case NameChar => !IsSpace(c) && c != '@'
    case NonSpace => !IsSpace(c)
    case NotHashOrNewline => c != '#' && c != '\n'
    case NotNewline => c != '\n'
  }

  predicate AllInRange(s: string, lo: nat, hi: nat, k: CharClass)
    requires lo <= hi <= |s|
  {
    forall t | lo <= t < hi :: InClass(s[t], k)
  }

  /** The end of the longest run of class `k` starting at `i`: what a greedy `k*` consumes. */
  function Span(s: string, i: nat, k: CharClass): (j: nat)
    requires i <= |s|
    ensures i <= j <= |s|
    decreases |s| - i
  {
    if i == |s| || !InClass(s[i], k) then i else Span(s, i + 1, k)
  }

  /** Everything the greedy run consumes is in the class, and it stops at the end or at a character outside it. */
  lemma {:induction false} SpanFacts(s: string, i: nat, k: CharClass)
    requires i <= |s|
    ensures AllInRange(s, i, Span(s, i, k), k)
    ensures Span(s, i, k) == |s| || !InClass(s[Span(s, i, k)], k)
    decreases |s| - i
  {
    if i < |s| && InClass(s[i], k) {
      SpanFacts(s, i + 1, k);
    }
  }

  /** A run of class `k` that ends at a character outside `k` is exactly what Span finds. */
  lemma {:induction false} SpanExact(s: string, i: nat, j: nat, k: CharClass)
    requires i <= j <= |s| && AllInRange(s, i, j, k)
    ensures j <= Span(s, i, k)
    ensures j == |s| || !InClass(s[j], k) ==> Span(s, i, k) == j
    decreases j - i
  {
    if i < j {
      assert InClass(s[i], k);
      SpanExact(s, i + 1, j, k);
    }
  }

  // ---------------------------------------------------------------- the tail `(?:\s*;[^#\n]*)?(?:\s*#(.*))?$`

  /**
   * How the text after the url can be read by the optional marker clause `\s*;[^#\n]*`
   * and the optional comment clause `\s*#(.*)`: positions of the `;`, of the end of the
   * marker text and of the `#`.
   */
  datatype TailSplit =
    | NoClauses
    | MarkerOnly(semi: nat)
    | CommentOnly(hash: nat)
    | MarkerAndComment(semi: nat, markerEnd: nat, hash: nat)

  /** `r` is read as `t` says, up to `$`, and `comment` is what group 3 captures. */
  predicate TailFits(r: string, t: TailSplit, comment: Option<string>) {
    match t
    case NoClauses =>
      r == [] && comment == None
    case MarkerOnly(s) =>
      && s < |r| && AllInRange(r, 0, s, Space) && r[s] == ';'
      && AllInRange(r, s + 1, |r|, NotHashOrNewline)
      && comment == None
    case CommentOnly(h) =>
      && h < |r| && AllInRange(r, 0, h, Space) && r[h] == '#'
      && AllInRange(r, h + 1, |r|, NotNewline)
      && comment == Some(r[h + 1..])
    case MarkerAndComment(s, x, h) =>
      && s < x <= h < |r| && AllInRange(r, 0, s, Space) && r[s] == ';'
      && AllInRange(r, s + 1, x, NotHashOrNewline) && AllInRange(r, x, h, Space) && r[h] == '#'
      && AllInRange(r, h + 1, |r|, NotNewline)
      && comment == Some(r[h + 1..])
  }

  /** The comment clause at position `h`: a `#` followed by no line break up to the end. */
  function CommentAt(r: string, h: nat): Option<Option<string>>
    requires h <= |r|
  {
    if h < |r| && r[h] == '#' && Span(r, h + 1, NotNewline) == |r| then Some(Some(r[h + 1..])) else None
  }

  /**
   * Matches the tail of a line: None when it cannot be matched, Some(group 3) otherwise.
   * After leading whitespace, a `;` starts the marker clause, which runs to the first `#`
   * or line break; a `#` (right away, or after the marker and whitespace) starts the comment.
   */
  function ParseTail(r: string): Option<Option<string>> {
    var k := Span(r, 0, Space);
    if k == |r| then (if r == [] then Some(None) else None)
    else if r[k] == ';' then
      var x := Span(r, k + 1, NotHashOrNewline);
      if x == |r| then Some(None) else CommentAt(r, Span(r, x, Space))
    else CommentAt(r, k)
  }

  lemma ParseTailSound(r: string)
    requires ParseTail(r).Some?
    ensures exists t :: TailFits(r, t, ParseTail(r).value)
  {
    var k := Span(r, 0, Space);
    if k == |r| {
      assert TailFits(r, NoClauses, ParseTail(r).value);
    } else if r[k] == ';' {
      var x := Span(r, k + 1, NotHashOrNewline);
      if x == |r| {
        MarkerOnlySound(r, k);
      } else {
        MarkerAndCommentSound(r, k, x, Span(r, x, Space));
      }
    } else {
      CommentOnlySound(r, k);
    }
  }

  /** ParseTailSound for a tail with only the marker clause. */
  lemma MarkerOnlySound(r: string, k: nat)
    requires k == Span(r, 0, Space) && k < |r| && r[k] == ';' && Span(r, k + 1, NotHashOrNewline) == |r|
    ensures TailFits(r, MarkerOnly(k), ParseTail(r).value)
  {
    SpanFacts(r, 0, Space);
    SpanFacts(r, k + 1, NotHashOrNewline);
  }

  /** ParseTailSound for a tail with only the comment clause. */
  lemma CommentOnlySound(r: string, h: nat)
    requires h == Span(r, 0, Space) && h < |r| && r[h] != ';' && ParseTail(r).Some?
    ensures TailFits(r, CommentOnly(h), ParseTail(r).value)
  {
    SpanFacts(r, 0, Space);
    SpanFacts(r, h + 1, NotNewline);
  }

  /** ParseTailSound for a tail with both clauses. */
  lemma MarkerAndCommentSound(r: string, k: nat, x: nat, h: nat)
    requires k == Span(r, 0, Space) && k < |r| && r[k] == ';'
    requires x == Span(r, k + 1, NotHashOrNewline) && x < |r| && h == Span(r, x, Space)
    requires ParseTail(r).Some?
    ensures TailFits(r, MarkerAndComment(k, x, h), ParseTail(r).value)
  {
    SpanFacts(r, 0, Space);
    SpanFacts(r, k + 1, NotHashOrNewline);
    SpanFacts(r, x, Space);
    SpanFacts(r, h + 1, NotNewline);
  }

  lemma ParseTailComplete(r: string, t: TailSplit, c: Option<string>)
    requires TailFits(r, t, c)
    ensures ParseTail(r) == Some(c)
  {
    match t
    case NoClauses =>
    case MarkerOnly(s) =>
      SpanExact(r, 0, s, Space);
      SpanExact(r, s + 1, |r|, NotHashOrNewline);
    case CommentOnly(h) =>
      SpanExact(r, 0, h, Space);
      SpanExact(r, h + 1, |r|, NotNewline);
    case MarkerAndComment(s, x, h) =>
      MarkerAndCommentComplete(r, s, x, h);
  }

  /** ParseTailComplete for a tail with both clauses: the marker stops at the `#`, wherever the blanks before it start. */
  lemma MarkerAndCommentComplete(r: string, s: nat, x: nat, h: nat)
    requires s < x <= h < |r| && AllInRange(r, 0, s, Space) && r[s] == ';'
    requires AllInRange(r, s + 1, x, NotHashOrNewline) && AllInRange(r, x, h, Space) && r[h] == '#'
    requires AllInRange(r, h + 1, |r|, NotNewline)
    ensures ParseTail(r) == Some(Some(r[h + 1..]))
  {
    SpanExact(r, 0, s, Space);
    var x' := Span(r, s + 1, NotHashOrNewline);
    SpanExact(r, s + 1, x, NotHashOrNewline);
    SpanFacts(r, s + 1, NotHashOrNewline);
    assert !InClass(r[h], NotHashOrNewline);
    assert x' <= h;
    SpanExact(r, x', h, Space);
    SpanExact(r, h + 1, |r|, NotNewline);
  }

  /**
   * ParseTail accepts exactly the tails the pattern can read, and then yields the one
   * group-3 value every reading agrees on.
   */
  lemma ParseTailCorrect(r: string, c: Option<string>)
    ensures ParseTail(r) == Some(c) <==> exists t :: TailFits(r, t, c)
  {
    if ParseTail(r) == Some(c) {
      ParseTailSound(r);
    }
    if exists t :: TailFits(r, t, c) {
      var t :| TailFits(r, t, c);
      ParseTailComplete(r, t, c);
    }
  }

  // ---------------------------------------------------------------- the whole line

  /** The groups of a successful match: name (group 1), url (group 2), comment (group 3). */
  datatype Match = Match(name: string, url: string, comment: Option<string>)

  /** Positions at which a line is cut into `\s*`, name, `\s*@\s*`, url and tail. */
  datatype LineSplit = LineSplit(nameStart: nat, nameEnd: nat, at: nat, urlStart: nat, urlEnd: nat, tail: TailSplit)

  /**
   * The declarative reading of `^\s*([^\s@]+)\s*@\s*(\S+)(?:\s*;[^#\n]*)?(?:\s*#(.*))?$`:
   * `line` is cut as `sp` says and the groups are `m`.
   */
  predicate LineFits(line: string, sp: LineSplit, m: Match) {
    && HeadFits(line, sp)
    && TailFits(line[sp.urlEnd..], sp.tail, m.comment)
    && m.name == line[sp.nameStart..sp.nameEnd]
    && m.url == line[sp.urlStart..sp.urlEnd]
  }

  /** The part of a reading up to the end of the url: `\s*([^\s@]+)\s*@\s*(\S+)`. */
  predicate HeadFits(line: string, sp: LineSplit) {
    && sp.nameStart < sp.nameEnd <= sp.at < sp.urlStart < sp.urlEnd <= |line|
    && AllInRange(line, 0, sp.nameStart, Space)
    && AllInRange(line, sp.nameStart, sp.nameEnd, NameChar)
    && AllInRange(line, sp.nameEnd, sp.at, Space)
    && line[sp.at] == '@'
    && AllInRange(line, sp.at + 1, sp.urlStart, Space)
    && AllInRange(line, sp.urlStart, sp.urlEnd, NonSpace)
  }

  /**
   * The backtracking of the greedy `(\S+)`: try the url ending at `k`, then at `k - 1`,
   * and so on down to `urlStart + 1`, and keep the first end after which the tail
   * matches; `urlStart` when there is none. The end found is the largest one in
   * `(urlStart, k]` with a matching tail.
   */
  function LongestUrlEnd(line: string, urlStart: nat, k: nat): (e: nat)
    requires urlStart <= k <= |line|
    ensures urlStart <= e <= k
    ensures e == urlStart || ParseTail(line[e..]).Some?
    decreases k
  {
    if k == urlStart || ParseTail(line[k..]).Some? then k
    else LongestUrlEnd(line, urlStart, k - 1)
  }

  /** Every url end in `(urlStart, k]` that leaves a tail which can be read is at most the one found. */
  lemma {:induction false} LongestUrlEndFacts(line: string, urlStart: nat, k: nat, j: nat)
    requires urlStart < j <= k <= |line|
    requires ParseTail(line[j..]).Some?
    ensures j <= LongestUrlEnd(line, urlStart, k)
    decreases k
  {
    if j < k {
      LongestUrlEndFacts(line, urlStart, k - 1, j);
      LongestUrlEndStep(line, urlStart, k);
    }
  }

  /** Backtracking past an end only lowers the end found. */
  lemma LongestUrlEndStep(line: string, urlStart: nat, k: nat)
    requires urlStart < k <= |line|
    ensures LongestUrlEnd(line, urlStart, k - 1) <= LongestUrlEnd(line, urlStart, k)
  {
  }

  /** `NAME_URL_RE.match(line)`, for a line that has been stripped (so `$` can only match at its end). */
  function MatchLine(line: string): Option<Match> {
    var nameStart := Span(line, 0, Space);
    var nameEnd := Span(line, nameStart, NameChar);
    var at := Span(line, nameEnd, Space);
    if nameEnd == nameStart || at == |line| || line[at] != '@' then None
    else MatchUrl(line, nameStart, nameEnd, Span(line, at + 1, Space))
  }

  /** The rest of the match once the name is known and the url starts at `urlStart`. */
  function MatchUrl(line: string, nameStart: nat, nameEnd: nat, urlStart: nat): Option<Match>
    requires nameStart <= nameEnd <= urlStart <= |line|
  {
    var urlEnd := LongestUrlEnd(line, urlStart, Span(line, urlStart, NonSpace));
    if urlEnd == urlStart then None
    else Some(Match(line[nameStart..nameEnd], line[urlStart..urlEnd], ParseTail(line[urlEnd..]).value))
  }

  /** Every match MatchLine reports is a reading of the line by the pattern. */
  lemma MatchLineSound(line: string)
    requires MatchLine(line).Some?
    ensures exists sp :: LineFits(line, sp, MatchLine(line).value)
  {
    var nameStart := Span(line, 0, Space);
    var nameEnd := Span(line, nameStart, NameChar);
    var at := Span(line, nameEnd, Space);
    var urlStart := Span(line, at + 1, Space);
    var urlRun := Span(line, urlStart, NonSpace);
    var urlEnd := LongestUrlEnd(line, urlStart, urlRun);
    assert nameEnd != nameStart && at < |line| && line[at] == '@';
    MatchLineFrom(line, nameStart, nameEnd, at, urlStart);
    var m := Match(line[nameStart..nameEnd], line[urlStart..urlEnd], ParseTail(line[urlEnd..]).value);
    assert MatchLine(line) == Some(m);
    ReadingOfCuts(line, nameStart, nameEnd, at, urlStart, urlEnd);
  }

  /** The cuts MatchLine makes, with a tail ParseTail accepts, are a reading of the line. */
  lemma ReadingOfCuts(line: string, nameStart: nat, nameEnd: nat, at: nat, urlStart: nat, urlEnd: nat)
    requires nameStart == Span(line, 0, Space) && nameEnd == Span(line, nameStart, NameChar)
    requires at == Span(line, nameEnd, Space) && nameStart != nameEnd
    requires at < |line| && line[at] == '@' && urlStart == Span(line, at + 1, Space)
    requires urlStart < urlEnd <= Span(line, urlStart, NonSpace) && ParseTail(line[urlEnd..]).Some?
    ensures exists sp :: LineFits(line, sp,
      Match(line[nameStart..nameEnd], line[urlStart..urlEnd], ParseTail(line[urlEnd..]).value))
  {
    var m := Match(line[nameStart..nameEnd], line[urlStart..urlEnd], ParseTail(line[urlEnd..]).value);
    ParseTailSound(line[urlEnd..]);
    var t :| TailFits(line[urlEnd..], t, m.comment);
    var sp := LineSplit(nameStart, nameEnd, at, urlStart, urlEnd, t);
    HeadFitsFromSpans(line, sp);
    ReadingOfParts(line, sp, m);
  }

  /** A head reading and a tail reading with the groups they cut out make a reading of the line. */
  lemma ReadingOfParts(line: string, sp: LineSplit, m: Match)
    requires HeadFits(line, sp) && TailFits(line[sp.urlEnd..], sp.tail, m.comment)
    requires m.name == line[sp.nameStart..sp.nameEnd] && m.url == line[sp.urlStart..sp.urlEnd]
    ensures LineFits(line, sp, m)
  {
  }

  /** The cuts MatchLine makes up to the end of the url are a reading of the head of the line. */
  lemma HeadFitsFromSpans(line: string, sp: LineSplit)
    requires sp.nameStart == Span(line, 0, Space) && sp.nameEnd == Span(line, sp.nameStart, NameChar)
    requires sp.at == Span(line, sp.nameEnd, Space) && sp.nameStart != sp.nameEnd
    requires sp.at < |line| && line[sp.at] == '@' && sp.urlStart == Span(line, sp.at + 1, Space)
    requires sp.urlStart < sp.urlEnd <= Span(line, sp.urlStart, NonSpace)
    ensures HeadFits(line, sp)
  {
    SpanFacts(line, 0, Space);
    SpanFacts(line, sp.nameStart, NameChar);
    SpanFacts(line, sp.nameEnd, Space);
    SpanFacts(line, sp.at + 1, Space);
    SpanFacts(line, sp.urlStart, NonSpace);
  }

  /** MatchLine once the name, the `@` and the start of the url are known. */
  lemma MatchLineFrom(line: string, nameStart: nat, nameEnd: nat, at: nat, urlStart: nat)
    requires Span(line, 0, Space) == nameStart && Span(line, nameStart, NameChar) == nameEnd
    requires Span(line, nameEnd, Space) == at && nameStart != nameEnd && at < |line| && line[at] == '@'
    requires Span(line, at + 1, Space) == urlStart
    ensures MatchLine(line) == MatchUrl(line, nameStart, nameEnd, urlStart)
  {
  }

  /** In any reading of a line, everything up to the url is where MatchLine looks for it. */
  lemma HeadIsForced(line: string, sp: LineSplit)
    requires HeadFits(line, sp)
    ensures Span(line, 0, Space) == sp.nameStart
    ensures Span(line, sp.nameStart, NameChar) == sp.nameEnd
    ensures Span(line, sp.nameEnd, Space) == sp.at
    ensures Span(line, sp.at + 1, Space) == sp.urlStart
    ensures sp.urlEnd <= Span(line, sp.urlStart, NonSpace)
  {
    SpanExact(line, 0, sp.nameStart, Space);
    if sp.nameEnd < sp.at {
      assert InClass(line[sp.nameEnd], Space);
    }
    SpanExact(line, sp.nameStart, sp.nameEnd, NameChar);
    SpanExact(line, sp.nameEnd, sp.at, Space);
    SpanExact(line, sp.at + 1, sp.urlStart, Space);
    SpanExact(line, sp.urlStart, sp.urlEnd, NonSpace);
  }

  /**
   * Whenever the pattern can read the line at all, MatchLine finds a match: the same name,
   * a url that starts at the same place and is at least as long, and when the urls are
   * equally long the very same groups. So MatchLine returns the reading with the longest
   * url, which is the one Python's backtracking search returns first.
   */
  lemma MatchLineLongest(line: string, sp: LineSplit, m: Match)
    requires LineFits(line, sp, m)
    ensures MatchLine(line).Some?
    ensures var r := MatchLine(line).value;
      && r.name == m.name
      && r.url == line[sp.urlStart..sp.urlStart + |r.url|]
      && sp.urlEnd <= sp.urlStart + |r.url| <= Span(line, sp.urlStart, NonSpace)
      && (|r.url| == |m.url| ==> r == m)
  {
    HeadIsForced(line, sp);
    ParseTailComplete(line[sp.urlEnd..], sp.tail, m.comment);
    LongestFromHead(line, sp, m);
  }

  /** MatchLineLongest once the cuts MatchLine makes and the tail's reading are known. */
  lemma LongestFromHead(line: string, sp: LineSplit, m: Match)
    requires sp.nameStart < sp.nameEnd <= sp.at < sp.urlStart < sp.urlEnd <= |line| && line[sp.at] == '@'
    requires Span(line, 0, Space) == sp.nameStart && Span(line, sp.nameStart, NameChar) == sp.nameEnd
    requires Span(line, sp.nameEnd, Space) == sp.at && Span(line, sp.at + 1, Space) == sp.urlStart
    requires sp.urlEnd <= Span(line, sp.urlStart, NonSpace)
    requires ParseTail(line[sp.urlEnd..]) == Some(m.comment)
    requires m.name == line[sp.nameStart..sp.nameEnd] && m.url == line[sp.urlStart..sp.urlEnd]
    ensures MatchLine(line).Some?
    ensures var r := MatchLine(line).value;
      && r.name == m.name
      && r.url == line[sp.urlStart..sp.urlStart + |r.url|]
      && sp.urlEnd <= sp.urlStart + |r.url| <= Span(line, sp.urlStart, NonSpace)
      && (|r.url| == |m.url| ==> r == m)
  {
    MatchLineFrom(line, sp.nameStart, sp.nameEnd, sp.at, sp.urlStart);
    MatchUrlLongest(line, sp.nameStart, sp.nameEnd, sp.urlStart, sp.urlEnd, m);
  }

  /** The url part of MatchLineLongest: backtracking stops at the longest url whose tail can be read. */
  lemma MatchUrlLongest(line: string, nameStart: nat, nameEnd: nat, urlStart: nat, urlEnd: nat, m: Match)
    requires nameStart <= nameEnd <= urlStart < urlEnd <= |line| && urlEnd <= Span(line, urlStart, NonSpace)
    requires ParseTail(line[urlEnd..]) == Some(m.comment)
    requires m.name == line[nameStart..nameEnd] && m.url == line[urlStart..urlEnd]
    ensures MatchUrl(line, nameStart, nameEnd, urlStart).Some?
    ensures var r := MatchUrl(line, nameStart, nameEnd, urlStart).value;
      && r.name == m.name
      && r.url == line[urlStart..urlStart + |r.url|]
      && urlEnd <= urlStart + |r.url| <= Span(line, urlStart, NonSpace)
      && (|r.url| == |m.url| ==> r == m)
  {
    var urlRun := Span(line, urlStart, NonSpace);
    var e := LongestUrlEnd(line, urlStart, urlRun);
    LongestUrlEndFacts(line, urlStart, urlRun, urlEnd);
  }

  /** A line the pattern cannot read in any way is exactly a line MatchLine rejects. */
  lemma MatchLineNoneIffNoReading(line: string)
    ensures MatchLine(line).None? <==> forall sp, m :: !LineFits(line, sp, m)
  {
    if MatchLine(line).Some? {
      MatchLineSound(line);
    }
    forall sp, m | LineFits(line, sp, m)
      ensures MatchLine(line).Some?
    {
      MatchLineLongest(line, sp, m);
    }
  }

  // ---------------------------------------------------------------- one manifest line

  /** What `parse_manifest` does with one line: nothing, a warning, or an entry. */
  datatype LineKind = Ignored | Malformed | Parsed(entry: Entry)

  /**
   * One iteration of the loop of `parse_manifest`: strip the line; a blank line or one
   * starting with `#` is passed over; a line the pattern rejects is skipped with a
   * warning; otherwise the entry is (group 1, group 2, stripped group 3 or "").
   */
  function ClassifyLine(raw: string): LineKind {
    var line := Strip(raw);
    if line == [] || line[0] == '#' then Ignored
    else
      var m := MatchLine(line);
      if m.None? then Malformed
      else Parsed(Entry(m.value.name, m.value.url, Strip(m.value.comment.GetOr(""))))
  }

  /** A line is passed over silently exactly when it is blank or its first non-blank character is `#`. */
  lemma IgnoredIffBlankOrComment(raw: string)
    ensures ClassifyLine(raw).Ignored? <==> var k := Span(raw, 0, Space); k == |raw| || raw[k] == '#'
  {
    ClassifyIgnored(raw);
    StrippedBlankOrHash(raw);
  }

  /** The stripped line is passed over exactly when it is empty or starts with `#`. */
  lemma ClassifyIgnored(raw: string)
    ensures ClassifyLine(raw).Ignored? <==> Strip(raw) == [] || Strip(raw)[0] == '#'
  {
  }

  /** The stripped line is empty or starts with `#` exactly when the first non-blank character is `#` or missing. */
  lemma StrippedBlankOrHash(raw: string)
    ensures Strip(raw) == [] || Strip(raw)[0] == '#' <==> var k := Span(raw, 0, Space); k == |raw| || raw[k] == '#'
  {
    var k := Span(raw, 0, Space);
    var lo := |raw| - |TrimLeft(raw)|;
    StripEmptyIffBlank(raw);
    if lo < |raw| {
      SpanExact(raw, 0, lo, Space);
      assert Strip(raw)[0] == raw[lo];
    } else {
      SpanExact(raw, 0, lo, Space);
    }
  }

  /** The groups of any reading: a name without whitespace or `@`, a url without whitespace, a one-line comment. */
  lemma MatchShape(line: string, m: Match)
    requires exists sp :: LineFits(line, sp, m)
    ensures m.name != [] && (forall i | 0 <= i < |m.name| :: !IsSpace(m.name[i]) && m.name[i] != '@')
    ensures m.url != [] && (forall i | 0 <= i < |m.url| :: !IsSpace(m.url[i]))
    ensures m.comment.Some? ==> forall i | 0 <= i < |m.comment.value| :: m.comment.value[i] != '\n'
  {
    var sp :| LineFits(line, sp, m);
    SliceInClass(line, sp.nameStart, sp.nameEnd, NameChar);
    SliceInClass(line, sp.urlStart, sp.urlEnd, NonSpace);
    CommentShape(line[sp.urlEnd..], sp.tail, m.comment);
  }

  /** A slice of a run of class `k` is all of class `k`. */
  lemma SliceInClass(s: string, i: nat, j: nat, k: CharClass)
    requires i <= j <= |s| && AllInRange(s, i, j, k)
    ensures AllInRange(s[i..j], 0, j - i, k)
  {
    assert forall t | 0 <= t < j - i :: s[i..j][t] == s[i + t];
  }

  /** The comment a tail reading captures holds no line break. */
  lemma CommentShape(r: string, t: TailSplit, c: Option<string>)
    requires TailFits(r, t, c)
    ensures c.Some? ==> forall i | 0 <= i < |c.value| :: c.value[i] != '\n'
  {
    match t
    case NoClauses =>
    case MarkerOnly(_) =>
    case CommentOnly(h) =>
      SliceInClass(r, h + 1, |r|, NotNewline);
    case MarkerAndComment(_, _, h) =>
      SliceInClass(r, h + 1, |r|, NotNewline);
  }

  /** Stripping keeps a string free of line breaks. */
  lemma StripKeepsOneLine(c: string)
    requires forall i | 0 <= i < |c| :: c[i] != '\n'
    ensures forall i | 0 <= i < |Strip(c)| :: Strip(c)[i] != '\n'
  {
    var lo := |c| - |TrimLeft(c)|;
    assert forall i | 0 <= i < |Strip(c)| :: Strip(c)[i] == c[lo + i];
  }

  /**
   * An accepted line gives a non-empty name without whitespace or `@`, a non-empty url
   * without whitespace, and a comment without a line break and without surrounding
   * whitespace.
   */
  lemma ParsedEntryShape(raw: string)
    requires ClassifyLine(raw).Parsed?
    ensures var e := ClassifyLine(raw).entry;
      && e.name != [] && (forall i | 0 <= i < |e.name| :: !IsSpace(e.name[i]) && e.name[i] != '@')
      && e.url != [] && (forall i | 0 <= i < |e.url| :: !IsSpace(e.url[i]))
      && (forall i | 0 <= i < |e.comment| :: e.comment[i] != '\n')
      && (e.comment == [] || (!IsSpace(e.comment[0]) && !IsSpace(e.comment[|e.comment| - 1])))
  {
    var line := Strip(raw);
    MatchLineSound(line);
    MatchShape(line, MatchLine(line).value);
    StrippedCommentOneLine(MatchLine(line).value.comment);
  }

  /** Stripping group 3, or "" when it did not take part, leaves no line break. */
  lemma StrippedCommentOneLine(c: Option<string>)
    requires c.Some? ==> forall i | 0 <= i < |c.value| :: c.value[i] != '\n'
    ensures forall i | 0 <= i < |Strip(c.GetOr(""))| :: Strip(c.GetOr(""))[i] != '\n'
  {
    StripKeepsOneLine(c.GetOr(""));
  }

  /** Leading whitespace does not change what a string strips to. */
  lemma StripLeadingSpace(c: char, t: string)
    requires IsSpace(c)
    ensures Strip([c] + t) == Strip(t)
  {
    assert ([c] + t)[1..] == t;
  }

  /** A stripped line that is not a comment and that MatchLine accepts gives the entry of the match. */
  lemma ClassifyFromMatch(raw: string, m: Match)
    requires raw != [] && !IsSpace(raw[0]) && !IsSpace(raw[|raw| - 1]) && raw[0] != '#'
    requires MatchLine(raw) == Some(m)
    ensures ClassifyLine(raw) == Parsed(Entry(m.name, m.url, Strip(m.comment.GetOr(""))))
  {
    StripStripped(raw);
  }

  /** A tail starting with a character that is not whitespace, `;` or `#` cannot be read. */
  lemma TailStartsBadly(r: string)
    requires r != [] && !IsSpace(r[0]) && r[0] != '#' && r[0] != ';'
    ensures ParseTail(r).None?
  {
    SpanExact(r, 0, 0, Space);
  }

  /** Nor can one whose first non-blank character, the second, is not `;` or `#`. */
  lemma TailSpaceThenBadly(r: string)
    requires |r| >= 2 && IsSpace(r[0]) && !IsSpace(r[1]) && r[1] != '#' && r[1] != ';'
    ensures ParseTail(r).None?
  {
    SpanExact(r, 0, 1, Space);
  }

  /** The reading of a line written as `name @ url` followed by a tail the tail clauses read. */
  lemma ReadLine(name: string, url: string, tail: string, t: TailSplit, c: Option<string>)
    requires name != [] && AllInRange(name, 0, |name|, NameChar)
    requires url != [] && AllInRange(url, 0, |url|, NonSpace)
    requires TailFits(tail, t, c)
    ensures var n := |name|;
      LineFits(name + " @ " + url + tail, LineSplit(0, n, n + 1, n + 3, n + 3 + |url|, t), Match(name, url, c))
  {
    var line := name + " @ " + url + tail;
    var n := |name|;
    assert line[..n] == name && line[n] == ' ' && line[n + 1] == '@' && line[n + 2] == ' ';
    assert line[n + 3..n + 3 + |url|] == url && line[n + 3 + |url|..] == tail;
    assert forall i | 0 <= i < n :: line[i] == name[i];
    assert forall i | n + 3 <= i < n + 3 + |url| :: line[i] == url[i - n - 3];
    assert IsSpace(' ');
  }

  /**
   * A line with an environment marker and a comment (written in pieces):
   * `pkgA @ https://x/a.whl ; python_version>='3.8' # built wheel`. The marker is dropped
   * and the comment stripped.
   */
  lemma ClassifyMarkerAndComment(line: string)
    requires line == "pkgA" + " @ " + "https://x/a.whl" + " ; python_version>='3.8' # built wheel"
    ensures ClassifyLine(line) == Parsed(Entry("pkgA", "https://x/a.whl", "built wheel"))
  {
    MatchMarkerAndComment(line);
    assert line[0] == 'p' && line[|line| - 1] == 'l';
    ClassifyFromMatch(line, Match("pkgA", "https://x/a.whl", Some(" built wheel")));
    StripLeadingBlank(" built wheel");
  }

  lemma MatchMarkerAndComment(line: string)
    requires line == "pkgA" + " @ " + "https://x/a.whl" + " ; python_version>='3.8' # built wheel"
    ensures MatchLine(line) == Some(Match("pkgA", "https://x/a.whl", Some(" built wheel")))
  {
    var tail := " ; python_version>='3.8' # built wheel";
    MarkerAndCommentTail(tail);
    assert AllInRange("pkgA", 0, 4, NameChar);
    assert AllInRange("https://x/a.whl", 0, 15, NonSpace);
    MatchWholeUrl("pkgA", "https://x/a.whl", tail, MarkerAndComment(1, 25, 25), Some(" built wheel"));
  }

  lemma MarkerAndCommentTail(tail: string)
    requires tail == " ; python_version>='3.8' # built wheel"
    ensures TailFits(tail, MarkerAndComment(1, 25, 25), Some(" built wheel"))
  {
    assert AllInRange(tail, 2, 25, NotHashOrNewline);
    assert tail[26..] == " built wheel";
  }

  /** When the tail is empty or starts with whitespace, the url is the whole run of non-blank characters. */
  lemma MatchWholeUrl(name: string, url: string, tail: string, t: TailSplit, c: Option<string>)
    requires name != [] && AllInRange(name, 0, |name|, NameChar)
    requires url != [] && AllInRange(url, 0, |url|, NonSpace)
    requires TailFits(tail, t, c)
    requires tail == [] || IsSpace(tail[0])
    ensures MatchLine(name + " @ " + url + tail) == Some(Match(name, url, c))
  {
    var line := name + " @ " + url + tail;
    var n := |name|;
    var e := n + 3 + |url|;
    LineHead(name, url, tail, t, c);
    if tail != [] {
      assert line[e] == tail[0];
    }
    SpanExact(line, n + 3, e, NonSpace);
    ParseTailComplete(tail, t, c);
    assert line[0..n] == name && line[n + 3..e] == url;
    LongestFromHead(line, LineSplit(0, n, n + 1, n + 3, e, t), Match(name, url, c));
  }

  lemma StripLeadingBlank(s: string)
    requires s == " built wheel"
    ensures Strip(s) == "built wheel"
  {
    var w := s[1..];
    assert w == "built wheel" && s == [' '] + w;
    StripLeadingSpace(' ', w);
    assert w[0] == 'b' && w[|w| - 1] == 'l';
    StripStripped(w);
  }

  /**
   * On the line `a @ u;m x` the greedy url first takes `u;m`, after which ` x` cannot be
   * read; giving back characters, the url `u` leaves `;m x`, which the marker clause reads.
   */
  lemma ClassifyBacktrackToMarker(line: string)
    requires line == "a" + " @ " + "u" + ";m x"
    ensures ClassifyLine(line) == Parsed(Entry("a", "u", ""))
  {
    MatchBacktrackToMarker(";m x");
    assert line[0] == 'a' && line[|line| - 1] == 'x';
    ClassifyFromMatch(line, Match("a", "u", None));
  }

  lemma MatchBacktrackToMarker(tail: string)
    requires tail == ";m x"
    ensures MatchLine("a" + " @ " + "u" + tail) == Some(Match("a", "u", None))
  {
    assert AllInRange(tail, 1, 4, NotHashOrNewline);
    assert tail[1..] == "m x" && tail[2..] == " x";
    TailStartsBadly("m x");
    TailSpaceThenBadly(" x");
    assert AllInRange("a", 0, 1, NameChar) && AllInRange("u", 0, 1, NonSpace);
    MatchBacktrackedUrl("a", "u", tail, MarkerOnly(0), None);
  }

  /**
   * On the line `a @ u#c x` the url gives back `#c`, and the rest is read as a comment:
   * the url is `u` and the comment `c x`.
   */
  lemma ClassifyBacktrackToComment(line: string)
    requires line == "a" + " @ " + "u" + "#c x"
    ensures ClassifyLine(line) == Parsed(Entry("a", "u", "c x"))
  {
    MatchBacktrackToComment("#c x");
    assert line[0] == 'a' && line[|line| - 1] == 'x';
    ClassifyFromMatch(line, Match("a", "u", Some("c x")));
    StripUnchanged("c x");
  }

  lemma StripUnchanged(s: string)
    requires s == "c x"
    ensures Strip(s) == s
  {
    assert s[0] == 'c' && s[|s| - 1] == 'x';
    StripStripped(s);
  }

  lemma MatchBacktrackToComment(tail: string)
    requires tail == "#c x"
    ensures MatchLine("a" + " @ " + "u" + tail) == Some(Match("a", "u", Some("c x")))
  {
    assert AllInRange(tail, 1, 4, NotNewline);
    assert tail[1..] == "c x" && tail[2..] == " x";
    TailStartsBadly("c x");
    TailSpaceThenBadly(" x");
    assert AllInRange("a", 0, 1, NameChar) && AllInRange("u", 0, 1, NonSpace);
    MatchBacktrackedUrl("a", "u", tail, CommentOnly(0), Some("c x"));
  }

  /** With nothing after it, `u#c` is a url of its own: the `#` is not read as a comment. */
  lemma ClassifyHashInsideUrl(line: string)
    requires line == "a @ " + "u#c"
    ensures ClassifyLine(line) == Parsed(Entry("a", "u#c", ""))
  {
    assert AllInRange("a", 0, 1, NameChar);
    assert AllInRange("u#c", 0, 3, NonSpace);
    MatchWholeUrl("a", "u#c", "", NoClauses, None);
    assert line == "a" + " @ " + "u#c" + "";
    assert line[0] == 'a' && line[|line| - 1] == 'c';
    ClassifyFromMatch(line, Match("a", "u#c", None));
  }

  /**
   * The shared step of the two backtracking lines: `name @ url` followed by a four-character
   * tail that the pattern reads, whose first two characters are not blank and whose last
   * three and last two it cannot read. The greedy url takes two characters too many and
   * gives them back.
   */
  lemma MatchBacktrackedUrl(name: string, url: string, tail: string, t: TailSplit, c: Option<string>)
    requires name != [] && AllInRange(name, 0, |name|, NameChar)
    requires url != [] && AllInRange(url, 0, |url|, NonSpace)
    requires TailFits(tail, t, c)
    requires |tail| == 4 && !IsSpace(tail[0]) && !IsSpace(tail[1]) && IsSpace(tail[2])
    requires ParseTail(tail[1..]).None? && ParseTail(tail[2..]).None?
    ensures MatchLine(name + " @ " + url + tail) == Some(Match(name, url, c))
  {
    var line := name + " @ " + url + tail;
    var n := |name|;
    var e := n + 3 + |url|;
    LineHead(name, url, tail, t, c);
    assert line[e] == tail[0] && line[e + 1] == tail[1] && line[e + 2] == tail[2];
    assert line[e + 1..] == tail[1..] && line[e + 2..] == tail[2..];
    ParseTailComplete(tail, t, c);
    GiveBackTwo(line, n + 3, e);
    MatchLineFrom(line, 0, n, n + 1, n + 3);
    assert line[0..n] == name && line[n + 3..e] == url;
  }

  /** Where MatchLine finds the name, the `@` and the url of a line `name @ url` followed by a readable tail. */
  lemma LineHead(name: string, url: string, tail: string, t: TailSplit, c: Option<string>)
    requires name != [] && AllInRange(name, 0, |name|, NameChar)
    requires url != [] && AllInRange(url, 0, |url|, NonSpace)
    requires TailFits(tail, t, c)
    ensures var line := name + " @ " + url + tail; var n := |name|;
      && Span(line, 0, Space) == 0 && Span(line, 0, NameChar) == n && Span(line, n, Space) == n + 1
      && line[n + 1] == '@' && Span(line, n + 2, Space) == n + 3
      && AllInRange(line, n + 3, n + 3 + |url|, NonSpace) && line[n + 3 + |url|..] == tail
  {
    var line := name + " @ " + url + tail;
    var n := |name|;
    ReadLine(name, url, tail, t, c);
    HeadIsForced(line, LineSplit(0, n, n + 1, n + 3, n + 3 + |url|, t));
  }

  /**
   * A url run followed by a four-character tail whose first two characters are not blank
   * and whose third is: the greedy run ends two characters into the tail, and when only
   * the whole tail can be read, the url gives those two characters back.
   */
  lemma GiveBackTwo(line: string, urlStart: nat, e: nat)
    requires urlStart < e && e + 4 == |line| && AllInRange(line, urlStart, e, NonSpace)
    requires !IsSpace(line[e]) && !IsSpace(line[e + 1]) && IsSpace(line[e + 2])
    requires ParseTail(line[e..]).Some? && ParseTail(line[e + 1..]).None? && ParseTail(line[e + 2..]).None?
    ensures LongestUrlEnd(line, urlStart, Span(line, urlStart, NonSpace)) == e
  {
    assert AllInRange(line, urlStart, e + 2, NonSpace);
    SpanExact(line, urlStart, e + 2, NonSpace);
    assert LongestUrlEnd(line, urlStart, e + 2) == LongestUrlEnd(line, urlStart, e + 1);
    assert LongestUrlEnd(line, urlStart, e + 1) == LongestUrlEnd(line, urlStart, e);
  }

  // ---------------------------------------------------------------- the whole manifest

  /** The entries one line contributes: its entry if it is accepted, none otherwise. */
  function LineEntries(raw: string): seq<Entry> {
    if ClassifyLine(raw).Parsed? then [ClassifyLine(raw).entry] else []
  }

  /** The entries of a manifest, line by line, in manifest order. */
  function Entries(lines: seq<string>): seq<Entry>
    decreases |lines|
  {
    if lines == [] then [] else Entries(lines[..|lines| - 1]) + LineEntries(lines[|lines| - 1])
  }

  /** Whether `parse_manifest` warns about a line and skips it. */
  predicate IsMalformed(raw: string) {
    ClassifyLine(raw).Malformed?
  }

  /** The 1-based numbers of the lines that satisfy `bad`, in order. */
  function LinesWhere(lines: seq<string>, bad: string -> bool): seq<nat>
    decreases |lines|
  {
    if lines == [] then []
    else LinesWhere(lines[..|lines| - 1], bad) + (if bad(lines[|lines| - 1]) then [|lines|] else [])
  }

  /** The 1-based numbers of the lines `parse_manifest` warns about and skips, in order. */
  function SkippedLines(lines: seq<string>): seq<nat> {
    LinesWhere(lines, IsMalformed)
  }

  /** One more line of the manifest adds its own entries and, when it is warned about, its number. */
  lemma ParseStep(lines: seq<string>, i: nat)
    requires i < |lines|
    ensures Entries(lines[..i + 1]) == Entries(lines[..i]) + LineEntries(lines[i])
    ensures SkippedLines(lines[..i + 1]) == SkippedLines(lines[..i]) + (if IsMalformed(lines[i]) then [i + 1] else [])
  {
    assert lines[..i + 1][..i] == lines[..i];
  }

  /**
   * `parse_manifest(path)` on the lines of the manifest: returns the entries and, in place
   * of the warnings on standard error, the numbers of the skipped lines.
   */
  method ParseManifest(lines: seq<string>) returns (entries: seq<Entry>, skipped: seq<nat>)
    ensures entries == Entries(lines)
    ensures skipped == SkippedLines(lines)
  {
    entries, skipped := [], [];
    for i := 0 to |lines|
      invariant entries == Entries(lines[..i])
      invariant skipped == SkippedLines(lines[..i])
    {
      ParseStep(lines, i);
      var kind := ClassifyLine(lines[i]);
      if kind.Malformed? {
        skipped := skipped + [i + 1];
      } else if kind.Parsed? {
        entries := entries + [kind.entry];
      }
    }
    assert lines[..|lines|] == lines;
  }

  /**
   * Every entry of a manifest has a non-empty name and a non-empty url without whitespace
   * and a comment without a line break.
   */
  lemma {:induction false} EntriesShape(lines: seq<string>)
    ensures forall e | e in Entries(lines) ::
      && e.name != [] && e.url != []
      && (forall i | 0 <= i < |e.name| :: !IsSpace(e.name[i]))
      && (forall i | 0 <= i < |e.url| :: !IsSpace(e.url[i]))
      && (forall i | 0 <= i < |e.comment| :: e.comment[i] != '\n')
    decreases |lines|
  {
    if lines != [] {
      EntriesShape(lines[..|lines| - 1]);
      if ClassifyLine(lines[|lines| - 1]).Parsed? {
        ParsedEntryShape(lines[|lines| - 1]);
      }
    }
  }

  /** Parsing two pieces of a manifest and concatenating is parsing the whole. */
  lemma {:induction false} EntriesAppend(a: seq<string>, b: seq<string>)
    ensures Entries(a + b) == Entries(a) + Entries(b)
    decreases |b|
  {
    if b == [] {
      assert a + b == a;
    } else {
      var b' := b[..|b| - 1];
      assert (a + b)[..|a + b| - 1] == a + b';
      assert (a + b)[|a + b| - 1] == b[|b| - 1];
      EntriesAppend(a, b');
    }
  }

  lemma CutAt<T>(s: seq<T>, i: nat)
    requires i < |s|
    ensures s[..i + 1] == s[..i] + [s[i]] && s[..i + 1] + s[i + 1..] == s
  {
  }

  /**
   * Each line contributes its own entries, in place: exactly one for an accepted line,
   * none for a skipped or ignored one, with the entries of earlier lines before it and
   * those of later lines after it.
   */
  lemma EntriesAround(lines: seq<string>, i: nat)
    requires i < |lines|
    ensures Entries(lines) == Entries(lines[..i]) + LineEntries(lines[i]) + Entries(lines[i + 1..])
  {
    CutAt(lines, i);
    EntriesAppend(lines[..i + 1], lines[i + 1..]);
    EntriesAppend(lines[..i], [lines[i]]);
    assert Entries([lines[i]]) == LineEntries(lines[i]) by {
      assert [lines[i]][..0] == [];
    }
  }

  /** There are never more entries than lines; the skipped lines are counted apart from them. */
  lemma {:induction false} EntriesBound(lines: seq<string>)
    ensures |Entries(lines)| + |SkippedLines(lines)| <= |lines|
    decreases |lines|
  {
    if lines != [] {
      EntriesBound(lines[..|lines| - 1]);
    }
  }

  /** `LinesWhere` holds exactly the numbers of the lines satisfying `bad`. */
  lemma {:induction false} LinesWhereExact(lines: seq<string>, bad: string -> bool)
    ensures forall n :: n in LinesWhere(lines, bad) <==> 1 <= n <= |lines| && bad(lines[n - 1])
    decreases |lines|
  {
    if lines != [] {
      var init := lines[..|lines| - 1];
      LinesWhereExact(init, bad);
      assert forall j | 0 <= j < |init| :: init[j] == lines[j];
    }
  }

  /** `LinesWhere` is strictly increasing and within the line numbers. */
  lemma {:induction false} LinesWhereAscending(lines: seq<string>, bad: string -> bool)
    ensures forall p | 0 <= p < |LinesWhere(lines, bad)| :: 1 <= LinesWhere(lines, bad)[p] <= |lines|
    ensures forall p, q | 0 <= p < q < |LinesWhere(lines, bad)| :: LinesWhere(lines, bad)[p] < LinesWhere(lines, bad)[q]
    decreases |lines|
  {
    if lines != [] {
      LinesWhereAscending(lines[..|lines| - 1], bad);
    }
  }

  /**
   * The skipped-line numbers are exactly the 1-based numbers of the lines the pattern
   * rejects, in strictly increasing order; blank and comment lines are never among them.
   */
  lemma SkippedLinesExact(lines: seq<string>)
    ensures forall n :: n in SkippedLines(lines) <==> 1 <= n <= |lines| && IsMalformed(lines[n - 1])
    ensures forall p, q | 0 <= p < q < |SkippedLines(lines)| :: SkippedLines(lines)[p] < SkippedLines(lines)[q]
  {
    LinesWhereExact(lines, IsMalformed);
    LinesWhereAscending(lines, IsMalformed);
  }
}
