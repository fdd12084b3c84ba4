# A verified model of generate_index.py

generate_index.py turns a manifest of `name @ url [; marker] [# comment]` lines into a
static PEP 503 "simple" package index. It writes a root `index.html` that links to every
package, plus one `<canonical name>/index.html` page per package that links to that
package's urls. This project models the program's core in Dafny and proves what it
promises:

- **Canonical** (`canonicalize`) models the name normalisation: lower-case the name, turn
  runs of `.`/`_` into `-`, then squeeze runs of `-`. It is proved equal to the one-pass
  rule of the "Normalized Names" section of PEP 503. It is also proved idempotent,
  blind to ASCII case, free of `.`, `_`, ASCII upper-case letters and doubled `-`, and to keep every other
  character in order.
- **Manifest** (`NAME_URL_RE` and `parse_manifest`):
  - The regular expression is modelled twice:
    - by a declarative reading of the pattern (`LineFits`, which cuts a line into its parts
      as the pattern allows);
    - by a matcher (`MatchLine`) that follows the way Python's backtracking search returns
      the reading with the longest url.
  - The two are proved to agree.
  - The parse loop is a method proved against the function `Entries`. In place of the
    warnings, it also returns the numbers of the skipped lines.
- **Html** (`html.escape` with `quote=True`) models the library's chain of five
  `str.replace` calls. It proves the following:
  - the chain equals a character-by-character escape;
  - the escaped text is safe: no raw `<`, `>`, `"` or `'`, and every `&` starts a
    character reference;
  - escaping can be undone.
- **Order** is Python's code-point string order and `sorted`. `sorted` is modelled as an
  insertion sort, proved to give an ascending permutation.
- **Index** (`write_index` and `main`):
  - The grouping loop builds the insertion-ordered `packages` dictionary.
  - Each page is rendered as a list of lines.
  - Writing the files is modelled as a map from the path relative to the output directory
    to the file's text, which is the lines joined with `"\n"`.
  - `main` becomes `Generate`, which returns one of three outcomes.

Two points where the code does more than a plain reading of the manifest format suggests:

- **The greedy url gives characters back.** When the text after a url cannot be read,
  the url is shortened until the rest can be. So `a @ u;m x` is accepted with url `u`,
  and `a @ u#c x` with url `u` and comment `c x`. Such lines are not skipped.
  `a @ u#c`, with nothing after it, is the url `u#c`. The model follows the code
  (`ClassifyBacktrackToMarker`, `ClassifyBacktrackToComment`, `ClassifyHashInsideUrl`).
- **`'` is escaped too.** `html.escape` with its default `quote=True` turns `'` into
  `&#x27;`, as well as `&`, `<`, `>` and `"`.

## Model

| member | source | states |
|---|---|---|
| Text.Strip | generate_index.py:32 | `line.strip()` gives a slice of the line that neither starts nor ends with whitespace, and everything cut off on either side is whitespace |
| Text.StripEmptyIffBlank | generate_index.py:32-33 | a line strips to the empty string exactly when all its characters are whitespace |
| Text.Lower | generate_index.py:23 | `name.lower()` keeps the length and lower-cases each ASCII letter, position by position |
| Canonical.DropRunShape | generate_index.py:24-25 | one regex match of `[._]+` or `-+` consumes exactly the longest prefix made of the class's characters |
| Canonical.CollapseRunsShape | generate_index.py:24-25 | a substitution is empty exactly when its input is, never grows the input, keeps only `-` and unchanged non-class characters, and leaves no two class characters side by side |
| Canonical.CanonicalShape | generate_index.py:21-26 | a canonical name has no `.`, no `_`, no upper-case ASCII letter and no two adjacent `-`; it is empty exactly when the name is, and never longer |
| Canonical.CanonicalizeNoSpace | generate_index.py:21-26 | a name without whitespace has a canonical name without whitespace |
| Canonical.CanonicalizeIsPep503 | generate_index.py:21-26 | the two chained substitutions equal PEP 503's single rule: `[-_.]+` becomes `-`, then lower-case |
| Canonical.CanonicalizeIdempotent | generate_index.py:21-26 | canonicalising a canonical name changes nothing |
| Canonical.CanonicalizeIgnoresCase | generate_index.py:23 | a name and its upper-cased form have the same canonical name |
| Canonical.CanonicalizeKeepsOtherCharacters | generate_index.py:24-25 | the characters other than separators survive, lower-cased, in their original order |
| Canonical.CanonicalizeSeparatorRun | generate_index.py:21-26 | two parts without separators, joined by any non-empty run of `.`, `_` and `-`, canonicalise to the lower-cased parts joined by a single `-` |
| Canonical.CanonicalizeDoubleUnderscore | generate_index.py:21-26 | `Foo__Bar` canonicalises to `foo-bar` |
| Canonical.CanonicalizeDot | generate_index.py:21-26 | `foo.bar` canonicalises to `foo-bar` |
| Canonical.CanonicalizeHyphen | generate_index.py:21-26 | `foo-bar` canonicalises to itself |
| Canonical.CanonicalizeKeepsLeadingSeparator | generate_index.py:21-26 | nothing is trimmed: `.foo` canonicalises to `-foo` |
| Manifest.SpanFacts | generate_index.py:18 | everything a greedy `k*` consumes is in the class, and it stops at the end of the line or at the first character outside the class |
| Manifest.SpanExact | generate_index.py:18 | a class run that ends at a character outside the class is exactly the greedy run |
| Manifest.ParseTailSound | generate_index.py:18 | every tail the tail matcher accepts has a reading by `(?:\s*;[^#\n]*)?(?:\s*#(.*))?$` with the same group 3 |
| Manifest.ParseTailComplete | generate_index.py:18 | every reading of a tail by those clauses is accepted by the matcher, with the same group 3 |
| Manifest.ParseTailCorrect | generate_index.py:18 | the tail matcher returns group 3 value `c` if and only if some reading of the tail yields `c` |
| Manifest.LongestUrlEnd | generate_index.py:18 | the url end the backtracking stops at lies within the greedy run, and the tail after it can be read unless no url is left |
| Manifest.LongestUrlEndFacts | generate_index.py:18 | every url end within the greedy run that leaves a tail which can be read is at most the end found, so the end found is the largest one |
| Manifest.MatchLineSound | generate_index.py:18 | every match found is a reading of the line by the whole pattern |
| Manifest.HeadIsForced | generate_index.py:18 | in any reading, the name, the `@` and the url start are where the greedy matcher finds them |
| Manifest.MatchLineLongest | generate_index.py:18 | whenever the pattern can read a line, the matcher finds a match with the same name and a url at least as long, and the same groups when the urls are equally long |
| Manifest.MatchUrlLongest | generate_index.py:18 | once the url start is known, any url end whose tail can be read is at most the one the matcher keeps, and an end as long gives the same groups |
| Manifest.MatchLineNoneIffNoReading | generate_index.py:35-36 | `NAME_URL_RE.match` fails exactly when no reading of the line exists |
| Manifest.IgnoredIffBlankOrComment | generate_index.py:32-34 | a line is passed over silently exactly when it is blank or its first non-blank character is `#` |
| Manifest.MatchShape | generate_index.py:18 | in any reading, the name is non-empty without whitespace or `@`, the url is non-empty without whitespace, and group 3 has no line break |
| Manifest.ParsedEntryShape | generate_index.py:35-40 | an accepted line gives a non-empty name without whitespace or `@`, a non-empty url without whitespace, and a comment without line breaks or surrounding whitespace |
| Manifest.ClassifyMarkerAndComment | generate_index.py:32-40 | `pkgA @ https://x/a.whl ; python_version>='3.8' # built wheel` gives the entry `("pkgA", "https://x/a.whl", "built wheel")`: the marker is dropped and the comment stripped |
| Manifest.ClassifyBacktrackToMarker | generate_index.py:32-40 | `a @ u;m x` is accepted with url `u`, because the url gives `;m` back to the marker clause |
| Manifest.ClassifyBacktrackToComment | generate_index.py:32-40 | `a @ u#c x` is accepted with url `u` and comment `c x` |
| Manifest.ClassifyHashInsideUrl | generate_index.py:32-40 | `a @ u#c` is the url `u#c` with no comment |
| Manifest.ParseStep | generate_index.py:31-40 | one more line adds exactly its own entries, and its 1-based number when it is warned about |
| Manifest.ParseManifest | generate_index.py:29-41 | the loop returns the entries of the accepted lines (`Entries`) and the 1-based numbers of the lines it warns about (`SkippedLines`) |
| Manifest.EntriesShape | generate_index.py:29-41 | every entry has a non-empty name and a non-empty url, both without whitespace, and a comment without a line break |
| Manifest.EntriesAppend | generate_index.py:31-40 | parsing two pieces of a manifest and concatenating is parsing the whole |
| Manifest.EntriesAround | generate_index.py:31-40 | each line contributes its own entries in place: one for an accepted line and none otherwise, after the earlier lines' entries and before the later ones' |
| Manifest.EntriesBound | generate_index.py:30-41 | entries plus skipped lines never outnumber the lines |
| Manifest.LinesWhereExact | generate_index.py:31-37 | the reported numbers are exactly the 1-based numbers of the lines with the property |
| Manifest.LinesWhereAscending | generate_index.py:31-37 | the reported numbers are strictly increasing and within the line count |
| Manifest.SkippedLinesExact | generate_index.py:35-38 | the warned-about lines are exactly the lines the pattern rejects, in increasing order |
| Html.ReplaceAllAppend | generate_index.py:55 | `str.replace` of one character distributes over concatenation |
| Html.ReplaceAllAbsent | generate_index.py:55 | replacing a character that does not occur changes nothing |
| Html.EscapeChar | generate_index.py:55 | exactly the five characters `& < > " '` are rewritten, each to text starting with `&` |
| Html.EscapeChainIsEscape | generate_index.py:55 | the library's five chained replacements, `&` first, equal the character-by-character escape |
| Html.EscapeIsSafe | generate_index.py:55 | escaped text has no raw `<`, `>`, `"` or `'`, and every `&` in it starts one of `&amp;`, `&lt;`, `&gt;`, `&quot;`, `&#x27;` |
| Html.EscapePlain | generate_index.py:55 | text without the five special characters is left unchanged |
| Html.EscapeAvoids | generate_index.py:55 | escaping introduces no character outside those of the character references, so a line break or space stays absent |
| Html.UnescapeEscape | generate_index.py:55 | decoding the five references recovers the original text |
| Html.EscapeInjective | generate_index.py:55 | different texts are escaped differently |
| Order.LessIrreflexive | generate_index.py:54 | no string is less than itself |
| Order.LessTransitive | generate_index.py:54 | string order is transitive |
| Order.LessTotal | generate_index.py:54 | any two different strings are ordered one way or the other |
| Order.SortCorrect | generate_index.py:54 | `sorted` returns an ascending permutation of its input |
| Order.SortDistinct | generate_index.py:54 | sorting distinct strings gives a strictly ascending list holding exactly those strings |
| Order.StrictlyAscendingUnique | generate_index.py:54 | a strictly ascending list is determined by the strings it holds |
| Index.KeyOrderDistinct | generate_index.py:47-50 | each key of `packages` is inserted once |
| Index.KeyOrderKeys | generate_index.py:47-50 | the keys of `packages` are exactly the canonical names of the entries |
| Index.GroupAppend | generate_index.py:47-50 | grouping two parts of the entries and concatenating is grouping the whole |
| Index.GroupCount | generate_index.py:47-50 | every entry lands in the group of its canonical name as often as it occurs, and in no other group |
| Index.GroupNonEmpty | generate_index.py:47-50 | a group is non-empty exactly when its key is a key of `packages` |
| Index.GroupEntries | generate_index.py:47-50 | the `setdefault(...).append` loop builds a dictionary whose keys are the insertion-ordered key list and whose value for each key is that key's group in manifest order |
| Index.PagePath | generate_index.py:57-68 | no package page is written where the root page is |
| Index.KeysNonEmpty | generate_index.py:47-49 | every key of the entries of a manifest is non-empty, so no package page lands on the output directory itself |
| Index.PagePathInjective | generate_index.py:61-68 | different keys get different page paths |
| Index.RenderRoot | generate_index.py:53-56 | the root page's lines are the fixed header, one list item per key in the order given, then the footer |
| Index.RootPageItems | generate_index.py:53-56 | the root page has `|keys| + 6` lines, and line `4 + i` is the item for key `i` |
| Index.RootItemSafe | generate_index.py:55 | the root item is `<li><a href="K/">K</a></li>` with K safe and unescaping to the key |
| Index.RenderPackage | generate_index.py:63-67 | a package page's lines are its header, one list item per grouped entry in order, then the footer |
| Index.PackagePageItems | generate_index.py:63-67 | a package page has `|items| + 6` lines, and line `4 + i` is the item for entry `i` |
| Index.ItemLineSafe | generate_index.py:65-66 | the entry item is `<li><a href="U">T</a></li>`, where U and T are safe and U unescapes to the url |
| Index.LinkTextRoundTrip | generate_index.py:65 | the link text reads back as the name and the comment, and carries ` - ` exactly when the comment is non-empty |
| Index.SplitJoin | generate_index.py:57-68 | lines without line breaks are recovered from their `"\n".join` |
| Index.SiteContents | generate_index.py:44-68 | the output holds the root page and one page per key, nothing else; the root page lists the sorted keys and each package page its group |
| Index.RootListing | generate_index.py:47-56 | the root page lists each canonical name of the entries exactly once, in strictly ascending order, and nothing else |
| Index.SiteFilesAreLines | generate_index.py:53-68 | for the entries of any manifest, splitting each written file at line breaks gives its page's lines back |
| Index.WriteIndex | generate_index.py:44-68 | the files written are exactly `Site(entries)`, whose contents SiteContents states |
| Index.Generate | generate_index.py:71-80 | a missing manifest writes nothing; a manifest without entries writes nothing; otherwise the files written are those of the manifest's entries |

## Left out

- serve_index.py is not part of this model. It only hands the output directory to Python's standard HTTP file server.
- File I/O. Reading the manifest, `mkdir`, `write_text` and the module constants `ROOT`, `MANIFEST` and `OUT` are left out. The manifest arrives as a sequence of lines, `None` when the file does not exist. The written files are returned as a map from relative path to text.
- Index.WriteIndex: does not model directories or files that already exist in the output directory before the run, nor I/O errors.
- Index.PagePath: joins the key and `/index.html` as strings. pathlib's handling is left out: a key that starts with `/` would escape the output directory, and a key with a trailing or doubled `/` would be normalised onto another key's page. The empty key would put its page over the root `index.html`. KeysNonEmpty shows that the parser never produces an empty key.
- Index.Generate: the messages `main` prints are left out; only which of the three outcomes happens, and the files, are modelled.
- Manifest.ParseManifest: returns the 1-based numbers of the skipped lines instead of printing warnings to standard error.
- `str.splitlines()` is left out; the manifest is taken as already split into lines.
- Canonical.CanonicalizeIgnoresCase: is proved for ASCII upper-casing (`Text.Upper`) only. Under Python's full case mapping the property fails: `'ß'.upper()` is `SS`, so `ß` canonicalises to `ß` but its upper-cased form to `ss`.
- Text.Lower: lower-cases ASCII letters only, not the rest of Unicode, because full case mapping is a table of the Python runtime.
- Manifest.MatchLine: models `$` as the end of the line. This is exact for the stripped line the program matches, since stripping removes a final line break. The rest of Python's regular-expression engine is left out; only this one pattern is modelled.
- Order.Sort: modelled as an insertion sort with the same result as `sorted`. Only its result is modelled, not Python's algorithm.
- Dictionary iteration order only decides the order in which the package pages are written. Once written, the set of files is a map with no order. The insertion order itself is modelled (`KeyOrder`). This holds for the string paths of the model. Under pathlib's merging of paths such as `a` and `a/`, the order would also decide which of the two pages survives.
