/**
 * `write_index` and `main` of generate_index.py: entries are grouped by canonical name,
 * a root page lists the names in ascending order and each name gets a page listing its
 * entries. The files the program writes are modelled as a map from the path relative to
 * the output directory to the file's text.
 */
module Index {
  import opened Wrappers
  import opened Text
  import opened Canonical
  import opened Manifest
  import opened Html
  import opened Order

  // ---------------------------------------------------------------- grouping

  /** The keys of `packages` in insertion order: each canonical name where it first appears. */
  function KeyOrder(entries: seq<Entry>): seq<string>
    decreases |entries|
  {
    if entries == [] then []
    else
      var keys := KeyOrder(entries[..|entries| - 1]);
      var key := Canonicalize(entries[|entries| - 1].name);
      if key in keys then keys else keys + [key]
  }

  /** `packages[key]`: the entries whose canonical name is `key`, in manifest order. */
  function Group(entries: seq<Entry>, key: string): seq<Entry>
    decreases |entries|
  {
    if entries == [] then []
    else
      var e := entries[|entries| - 1];
      Group(entries[..|entries| - 1], key) + if Canonicalize(e.name) == key then [e] else []
  }

  /** Each key is listed once. */
  lemma {:induction false} KeyOrderDistinct(entries: seq<Entry>)
    ensures Distinct(KeyOrder(entries))
    decreases |entries|
  {
    if entries != [] {
      KeyOrderDistinct(entries[..|entries| - 1]);
    }
  }

  /** The keys are exactly the canonical names of the entries. */
  lemma {:induction false} KeyOrderKeys(entries: seq<Entry>)
    ensures forall k :: k in KeyOrder(entries) <==> exists i | 0 <= i < |entries| :: Canonicalize(entries[i].name) == k
    decreases |entries|
  {
    if entries != [] {
      var init := entries[..|entries| - 1];
      KeyOrderKeys(init);
      assert forall i | 0 <= i < |init| :: init[i] == entries[i];
      forall k | exists i | 0 <= i < |entries| :: Canonicalize(entries[i].name) == k
        ensures k in KeyOrder(entries)
      {
        var i :| 0 <= i < |entries| && Canonicalize(entries[i].name) == k;
        if i < |init| {
          assert Canonicalize(init[i].name) == k;
        }
      }
    }
  }

  /** Grouping the two parts of a manifest and concatenating is grouping the whole. */
  lemma {:induction false} GroupAppend(a: seq<Entry>, b: seq<Entry>, key: string)
    ensures Group(a + b, key) == Group(a, key) + Group(b, key)
    decreases |b|
  {
    if b == [] {
      assert a + b == a;
    } else {
      var b' := b[..|b| - 1];
      assert (a + b)[..|a + b| - 1] == a + b';
      assert (a + b)[|a + b| - 1] == b[|b| - 1];
      GroupAppend(a, b', key);
    }
  }

  /**
   * Every entry lands in the group of its own canonical name, as often as it occurs in
   * the manifest, and in no other group.
   */
  lemma {:induction false} GroupCount(entries: seq<Entry>, key: string, e: Entry)
    ensures multiset(Group(entries, key))[e] == if Canonicalize(e.name) == key then multiset(entries)[e] else 0
    decreases |entries|
  {
    if entries != [] {
      var init := entries[..|entries| - 1];
      GroupCount(init, key, e);
      assert entries == init + [entries[|entries| - 1]];
    }
  }

  /** A group is non-empty exactly when its key is one of the keys. */
  lemma {:induction false} GroupNonEmpty(entries: seq<Entry>, key: string)
    ensures Group(entries, key) != [] <==> key in KeyOrder(entries)
    decreases |entries|
  {
    if entries != [] {
      GroupNonEmpty(entries[..|entries| - 1], key);
    }
  }

  // ---------------------------------------------------------------- pages

  /** Where the root page and the page of a package are written, relative to the output directory. */
  const IndexPath: string := "index.html"

  function PagePath(key: string): (p: string)
    ensures p != IndexPath
  {
    key + "/index.html"
  }

  lemma PagePathInjective(a: string, b: string)
    requires PagePath(a) == PagePath(b)
    ensures a == b
  {
    assert a == PagePath(a)[..|a|];
    assert b == PagePath(b)[..|b|];
  }

  /** The last two lines of every page. */
  const Footer: seq<string> := ["</ul>", "</body></html>"]

  /** The start of the second line of every page. */
  const HtmlOpen: string := "<html><head><meta charset=\"utf-8\">"

  /** The first four lines of the root page. */
  const RootHeader: seq<string> := [
    "<!doctype html>",
    HtmlOpen + "<title>simple index</title>" + "</head><body>",
    "<h1>Simple Index</h1>",
    "<ul>"]

  /** The list item of a package on the root page. */
  function RootItem(key: string): string {
    "<li><a href=\"" + Escape(key) + "/\">" + Escape(key) + "</a></li>"
  }

  /** The lines `f(s[0])`, `f(s[1])`, ... in order: what a loop of `append(f(x))` over `s` builds. */
  function MapLines<T>(f: T -> string, s: seq<T>): (r: seq<string>)
    ensures |r| == |s|
    decreases |s|
  {
    if s == [] then [] else MapLines(f, s[..|s| - 1]) + [f(s[|s| - 1])]
  }

  lemma {:induction false} MapLinesAt<T>(f: T -> string, s: seq<T>)
    ensures forall i | 0 <= i < |s| :: MapLines(f, s)[i] == f(s[i])
    decreases |s|
  {
    if s != [] {
      var init := s[..|s| - 1];
      MapLinesAt(f, init);
      assert forall i | 0 <= i < |init| :: MapLines(f, s)[i] == MapLines(f, init)[i];
    }
  }

  /** One more turn of a loop that appends `f(s[t])` to `prefix + MapLines(f, s[..t])`. */
  lemma MapLinesStep<T>(prefix: seq<string>, f: T -> string, s: seq<T>, t: nat)
    requires t < |s|
    ensures prefix + MapLines(f, s[..t]) + [f(s[t])] == prefix + MapLines(f, s[..t + 1])
  {
    assert s[..t + 1][..t] == s[..t];
  }

  function RootPage(keys: seq<string>): seq<string> {
    RootHeader + MapLines(RootItem, keys) + Footer
  }

  /** The first four lines of the page of a package. */
  function PackageHeader(key: string): seq<string> {
    [ "<!doctype html>",
      HtmlOpen + "<title>Links for " + Escape(key) + "</title></head><body>",
      "<h1>Links for " + Escape(key) + "</h1>",
      "<ul>"]
  }

  /** The text of an entry's link: the name, and ` - ` and the comment when there is one. */
  function LinkText(e: Entry): string {
    if e.comment != [] then Escape(e.name) + " - " + Escape(e.comment) else Escape(e.name)
  }

  /** The list item of an entry on its package page. */
  function ItemLine(e: Entry): string {
    "<li><a href=\"" + Escape(e.url) + "\">" + LinkText(e) + "</a></li>"
  }

  function PackagePage(key: string, items: seq<Entry>): seq<string> {
    PackageHeader(key) + MapLines(ItemLine, items) + Footer
  }

  /** `"\n".join(lines)`. */
  function Join(lines: seq<string>): string
    decreases |lines|
  {
    if lines == [] then []
    else if |lines| == 1 then lines[0]
    else Join(lines[..|lines| - 1]) + "\n" + lines[|lines| - 1]
  }

  /** A page of an `n`-line header, one line per element of `s` and the footer, line by line. */
  lemma PageLines<T>(header: seq<string>, n: nat, f: T -> string, s: seq<T>)
    requires |header| == n
    ensures var p := header + MapLines(f, s) + Footer;
      && |p| == |s| + n + 2 && p[..n] == header && p[|s| + n..] == Footer
      && forall i | 0 <= i < |s| :: p[n + i] == f(s[i])
  {
    MapLinesAt(f, s);
  }

  /** The root page: the header, one list item per key in the order given, the footer. */
  lemma RootPageItems(keys: seq<string>)
    ensures |RootPage(keys)| == |keys| + 6
    ensures RootPage(keys)[..4] == RootHeader && RootPage(keys)[|keys| + 4..] == Footer
    ensures forall i | 0 <= i < |keys| :: RootPage(keys)[4 + i] == RootItem(keys[i])
  {
    PageLines(RootHeader, 4, RootItem, keys);
  }

  /** A package page: the header, one list item per entry in the order given, the footer. */
  lemma PackagePageItems(key: string, items: seq<Entry>)
    ensures |PackagePage(key, items)| == |items| + 6
    ensures PackagePage(key, items)[..4] == PackageHeader(key) && PackagePage(key, items)[|items| + 4..] == Footer
    ensures forall i | 0 <= i < |items| :: PackagePage(key, items)[4 + i] == ItemLine(items[i])
  {
    PackageHeaderLength(key);
    PageLines(PackageHeader(key), 4, ItemLine, items);
  }

  lemma PackageHeaderLength(key: string)
    ensures |PackageHeader(key)| == 4
  {
  }

  /** The text a reader sees of a link: everything up to the first ` - `, and after it the comment. */
  function FirstSeparator(t: string, j: nat): (k: nat)
    requires j <= |t|
    ensures j <= k <= |t|
    ensures k < |t| ==> k + 3 <= |t| && t[k..k + 3] == " - "
    decreases |t| - j
  {
    if j + 3 > |t| then |t|
    else if t[j..j + 3] == " - " then j
    else FirstSeparator(t, j + 1)
  }

  /** Reads a link text back into the name and the comment it shows. */
  function ReadLinkText(t: string): (string, string) {
    var k := FirstSeparator(t, 0);
    if k == |t| then (Unescape(t), "") else (Unescape(t[..k]), Unescape(t[k + 3..]))
  }

  lemma {:induction false} FirstSeparatorSkips(t: string, j: nat, m: nat)
    requires j <= m <= |t|
    requires forall i | j <= i < m :: t[i] != ' '
    ensures FirstSeparator(t, j) == FirstSeparator(t, m)
    decreases m - j
  {
    if j < m {
      if j + 3 <= |t| {
        assert t[j..j + 3][0] == t[j];
      }
      FirstSeparatorSkips(t, j + 1, m);
    }
  }

  /**
   * For a name without spaces, as every parsed name is, the link text gives back the name
   * and the comment, and it carries the ` - ` separator exactly when the comment is non-empty.
   */
  lemma LinkTextRoundTrip(e: Entry)
    requires ' ' !in e.name
    ensures ReadLinkText(LinkText(e)) == (e.name, e.comment)
    ensures FirstSeparator(LinkText(e), 0) < |LinkText(e)| <==> e.comment != []
  {
    var n := Escape(e.name);
    var t := LinkText(e);
    EscapeAvoids(e.name, ' ');
    assert forall i | 0 <= i < |n| :: t[i] == n[i];
    FirstSeparatorSkips(t, 0, |n|);
    UnescapeEscape(e.name);
    UnescapeEscape(e.comment);
    if e.comment != [] {
      var c := Escape(e.comment);
      assert t == n + " - " + c;
      assert t[|n|..|n| + 3] == " - ";
      assert t[..|n|] == n && t[|n| + 3..] == c;
    }
  }

  /**
   * Everything a package page shows of an entry is escaped: the link is
   * `<li><a href="URL">TEXT</a></li>` where URL and TEXT cannot be read as markup and URL
   * unescapes to the entry's url.
   */
  lemma ItemLineSafe(e: Entry)
    ensures exists u, x :: ItemLine(e) == "<li><a href=\"" + u + "\">" + x + "</a></li>" && Safe(u) && Unescape(u) == e.url && Safe(x)
  {
    var u := Escape(e.url);
    EscapeIsSafe(e.url);
    UnescapeEscape(e.url);
    EscapeIsSafe(e.name);
    EscapeIsSafe(e.comment);
    var sep := " - ";
    assert Safe(sep);
    if e.comment != [] {
      SafeAppend(Escape(e.name), sep);
      SafeAppend(Escape(e.name) + sep, Escape(e.comment));
    }
    assert ItemLine(e) == "<li><a href=\"" + u + "\">" + LinkText(e) + "</a></li>";
  }

  /**
   * Everything the root page shows of a key is escaped: the item is
   * `<li><a href="K/">K</a></li>` where K cannot be read as markup and unescapes to the key.
   */
  lemma RootItemSafe(key: string)
    ensures exists t :: RootItem(key) == "<li><a href=\"" + t + "/\">" + t + "</a></li>" && Safe(t) && Unescape(t) == key
  {
    EscapeIsSafe(key);
    UnescapeEscape(key);
    assert RootItem(key) == "<li><a href=\"" + Escape(key) + "/\">" + Escape(key) + "</a></li>";
  }

  /** The last position before `k` holding `c`, or -1 when there is none. */
  function LastIndexOf(s: string, c: char, k: nat): (r: int)
    requires k <= |s|
    ensures -1 <= r < k
    ensures r >= 0 ==> s[r] == c
    ensures forall j | r < j < k :: s[j] != c
  {
    if k == 0 then -1 else if s[k - 1] == c then k - 1 else LastIndexOf(s, c, k - 1)
  }

  /** `s.split("\n")`: the pieces of `s` between line breaks. */
  function Split(s: string): (r: seq<string>)
    ensures r != []
    decreases |s|
  {
    var i := LastIndexOf(s, '\n', |s|);
    if i < 0 then [s] else Split(s[..i]) + [s[i + 1..]]
  }

  /** Splitting text joined at a last line break gives the pieces before it and the last line. */
  lemma SplitAtLast(a: string, b: string)
    requires '\n' !in b
    ensures Split(a + "\n" + b) == Split(a) + [b]
  {
    var text := a + "\n" + b;
    var m := |a|;
    assert text[m] == '\n';
    assert forall j | m < j < |text| :: text[j] == b[j - m - 1];
    assert LastIndexOf(text, '\n', |text|) == m;
    assert text[..m] == a && text[m + 1..] == b;
  }

  /** A text without line breaks splits into itself. */
  lemma SplitOneLine(a: string)
    requires '\n' !in a
    ensures Split(a) == [a]
  {
    assert LastIndexOf(a, '\n', |a|) < 0;
  }

  /** Lines without line breaks are recovered from the text `"\n".join` makes of them. */
  lemma {:induction false} SplitJoin(lines: seq<string>)
    requires lines != [] && AllOneLine(lines)
    ensures Split(Join(lines)) == lines
    decreases |lines|
  {
    if |lines| == 1 {
      SplitOneLine(lines[0]);
    } else {
      var init := lines[..|lines| - 1];
      var last := lines[|lines| - 1];
      assert Join(lines) == Join(init) + "\n" + last;
      assert '\n' !in last;
      assert AllOneLine(init) by {
        forall i | 0 <= i < |init| ensures '\n' !in init[i] { assert init[i] == lines[i]; }
      }
      SplitAtLast(Join(init), last);
      SplitJoin(init);
      assert lines == init + [last];
    }
  }

  /** An entry whose texts fit on one line and whose name has no space, as every parsed entry. */
  predicate OneLineEntry(e: Entry) {
    '\n' !in e.name && ' ' !in e.name && '\n' !in e.url && '\n' !in e.comment
  }

  /** No line of `lines` holds a line break. */
  predicate AllOneLine(lines: seq<string>) {
    forall i | 0 <= i < |lines| :: '\n' !in lines[i]
  }

  lemma AllOneLineParts(a: seq<string>, b: seq<string>, c: seq<string>)
    requires AllOneLine(a) && AllOneLine(b) && AllOneLine(c)
    ensures AllOneLine(a + b + c)
  {
  }

  lemma {:induction false} MapLinesOneLine<T>(f: T -> string, s: seq<T>)
    requires forall i | 0 <= i < |s| :: '\n' !in f(s[i])
    ensures AllOneLine(MapLines(f, s))
  {
    MapLinesAt(f, s);
  }

  lemma RootItemOneLine(key: string)
    requires '\n' !in key
    ensures '\n' !in RootItem(key)
  {
    EscapeAvoids(key, '\n');
  }

  lemma ItemLineOneLine(e: Entry)
    requires OneLineEntry(e)
    ensures '\n' !in ItemLine(e)
  {
    EscapeAvoids(e.url, '\n');
    LinkTextOneLine(e);
    ItemTextsOneLine();
  }

  lemma LinkTextOneLine(e: Entry)
    requires OneLineEntry(e)
    ensures '\n' !in LinkText(e)
  {
    EscapeAvoids(e.name, '\n');
    EscapeAvoids(e.comment, '\n');
    assert '\n' !in " - ";
  }

  lemma ItemTextsOneLine()
    ensures '\n' !in "<li><a href=\"" && '\n' !in "\">" && '\n' !in "</a></li>"
  {
  }

  lemma HtmlOpenOneLine()
    ensures '\n' !in HtmlOpen
  {
  }

  lemma ShortLinesOneLine()
    ensures '\n' !in "<!doctype html>" && '\n' !in "<ul>" && '\n' !in "</ul>" && '\n' !in "</body></html>"
  {
  }

  lemma RootTextsOneLine()
    ensures '\n' !in "<title>simple index</title>" && '\n' !in "</head><body>" && '\n' !in "<h1>Simple Index</h1>"
  {
  }

  lemma PackageTextsOneLine()
    ensures '\n' !in "<title>Links for " && '\n' !in "</title></head><body>"
    ensures '\n' !in "<h1>Links for " && '\n' !in "</h1>"
  {
  }

  /** The fixed lines of the pages hold no line break. */
  lemma FixedLinesOneLine()
    ensures AllOneLine(RootHeader) && AllOneLine(Footer)
  {
    HtmlOpenOneLine();
    ShortLinesOneLine();
    RootTextsOneLine();
  }

  lemma PackageHeaderOneLine(key: string)
    requires '\n' !in key
    ensures AllOneLine(PackageHeader(key))
  {
    EscapeAvoids(key, '\n');
    HtmlOpenOneLine();
    ShortLinesOneLine();
    PackageTextsOneLine();
  }

  lemma RootPageOneLine(keys: seq<string>)
    requires forall i | 0 <= i < |keys| :: '\n' !in keys[i]
    ensures AllOneLine(RootPage(keys))
  {
    forall i | 0 <= i < |keys|
      ensures '\n' !in RootItem(keys[i])
    {
      RootItemOneLine(keys[i]);
    }
    MapLinesOneLine(RootItem, keys);
    FixedLinesOneLine();
    AllOneLineParts(RootHeader, MapLines(RootItem, keys), Footer);
  }

  lemma PackagePageOneLine(key: string, items: seq<Entry>)
    requires '\n' !in key
    requires forall i | 0 <= i < |items| :: OneLineEntry(items[i])
    ensures AllOneLine(PackagePage(key, items))
  {
    forall i | 0 <= i < |items|
      ensures '\n' !in ItemLine(items[i])
    {
      ItemLineOneLine(items[i]);
    }
    MapLinesOneLine(ItemLine, items);
    FixedLinesOneLine();
    PackageHeaderOneLine(key);
    AllOneLineParts(PackageHeader(key), MapLines(ItemLine, items), Footer);
  }

  // ---------------------------------------------------------------- the output directory

  /**
   * The files after the root page and the pages of `keys` have been written: the root page
   * lists the keys of `entries` in ascending order; the page of a key lists its group.
   */
  function SiteAfter(entries: seq<Entry>, keys: seq<string>): (site: map<string, string>)
    ensures IndexPath in site
    decreases |keys|
  {
    if keys == [] then map[IndexPath := Join(RootPage(Sort(KeyOrder(entries))))]
    else
      var key := keys[|keys| - 1];
      SiteAfter(entries, keys[..|keys| - 1])[PagePath(key) := Join(PackagePage(key, Group(entries, key)))]
  }

  /** Writing the page of the next key of `keys` extends the files written so far by that page. */
  lemma SiteAfterStep(entries: seq<Entry>, keys: seq<string>, j: nat)
    requires j < |keys|
    ensures SiteAfter(entries, keys[..j + 1])
      == SiteAfter(entries, keys[..j])[PagePath(keys[j]) := Join(PackagePage(keys[j], Group(entries, keys[j])))]
  {
    assert keys[..j + 1][..j] == keys[..j];
  }

  /** The files `write_index(entries, outdir)` writes. */
  function Site(entries: seq<Entry>): (site: map<string, string>)
    ensures IndexPath in site
  {
    SiteAfter(entries, KeyOrder(entries))
  }

  /** The files written after the pages of `keys`: the root page and one page per key. */
  lemma {:induction false} SiteAfterPaths(entries: seq<Entry>, keys: seq<string>)
    ensures SiteAfter(entries, keys).Keys == {IndexPath} + set k | k in keys :: PagePath(k)
    decreases |keys|
  {
    if keys != [] {
      var init := keys[..|keys| - 1];
      var key := keys[|keys| - 1];
      SiteAfterPaths(entries, init);
      PagePathsStep(keys);
    }
  }

  /** The paths of the pages of `keys` are those of all but its last key, and the last key's. */
  lemma PagePathsStep(keys: seq<string>)
    requires keys != []
    ensures (set k | k in keys :: PagePath(k))
      == (set k | k in keys[..|keys| - 1] :: PagePath(k)) + {PagePath(keys[|keys| - 1])}
  {
    assert keys == keys[..|keys| - 1] + [keys[|keys| - 1]];
  }

  /** Writing package pages leaves the root page as it was written first. */
  lemma {:induction false} SiteAfterRoot(entries: seq<Entry>, keys: seq<string>)
    ensures SiteAfter(entries, keys)[IndexPath] == Join(RootPage(Sort(KeyOrder(entries))))
    decreases |keys|
  {
    if keys != [] {
      SiteAfterRoot(entries, keys[..|keys| - 1]);
    }
  }

  /** The page of each key written holds that key's group; later pages do not overwrite it. */
  lemma {:induction false} SiteAfterPages(entries: seq<Entry>, keys: seq<string>)
    ensures forall k | k in keys :: PagePath(k) in SiteAfter(entries, keys)
    ensures forall k | k in keys :: SiteAfter(entries, keys)[PagePath(k)] == Join(PackagePage(k, Group(entries, k)))
    decreases |keys|
  {
    if keys != [] {
      var init := keys[..|keys| - 1];
      var key := keys[|keys| - 1];
      SiteAfterPages(entries, init);
      assert keys == init + [key];
      forall k | k in keys
        ensures PagePath(k) in SiteAfter(entries, keys)
        ensures SiteAfter(entries, keys)[PagePath(k)] == Join(PackagePage(k, Group(entries, k)))
      {
        if k != key {
          assert k in init;
          if PagePath(k) == PagePath(key) {
            PagePathInjective(k, key);
          }
        }
      }
    }
  }

  /**
   * The output directory holds the root page and one page per key, nothing else; the root
   * page lists the sorted keys and each package page its group.
   */
  lemma SiteContents(entries: seq<Entry>)
    ensures Site(entries).Keys == {IndexPath} + set k | k in KeyOrder(entries) :: PagePath(k)
    ensures Site(entries)[IndexPath] == Join(RootPage(Sort(KeyOrder(entries))))
    ensures forall k | k in KeyOrder(entries) :: Site(entries)[PagePath(k)] == Join(PackagePage(k, Group(entries, k)))
  {
    SiteAfterPaths(entries, KeyOrder(entries));
    SiteAfterRoot(entries, KeyOrder(entries));
    SiteAfterPages(entries, KeyOrder(entries));
  }

  /**
   * The root page lists each canonical name of the manifest exactly once, in strictly
   * ascending order, and nothing else; any strictly ascending list of those names is it.
   */
  lemma RootListing(entries: seq<Entry>, listed: seq<string>)
    ensures var keys := Sort(KeyOrder(entries));
      && StrictlyAscending(keys)
      && (forall k :: k in keys <==> exists i | 0 <= i < |entries| :: Canonicalize(entries[i].name) == k)
      && (StrictlyAscending(listed) && (forall k :: k in listed <==> k in KeyOrder(entries)) ==> listed == keys)
  {
    KeyOrderDistinct(entries);
    KeyOrderKeys(entries);
    SortDistinct(KeyOrder(entries));
    if StrictlyAscending(listed) && (forall k :: k in listed <==> k in KeyOrder(entries)) {
      StrictlyAscendingUnique(listed, Sort(KeyOrder(entries)));
    }
  }

  /** Every entry of a manifest fits on one line and has a name without spaces. */
  lemma EntriesOneLine(manifest: seq<string>)
    ensures forall e | e in Entries(manifest) :: OneLineEntry(e)
  {
    EntriesShape(manifest);
    assert IsSpace(' ') && IsSpace('\n');
  }

  /** Canonical names of such entries hold no line break. */
  /**
   * Every key of a manifest's entries is non-empty, so no package page is written at the
   * output directory itself, where `outdir / ""` would put it over the root page.
   */
  lemma KeysNonEmpty(manifest: seq<string>)
    ensures forall k | k in KeyOrder(Entries(manifest)) :: k != []
  {
    var es := Entries(manifest);
    EntriesShape(manifest);
    KeyOrderKeys(es);
    forall k | k in KeyOrder(es)
      ensures k != []
    {
      var i :| 0 <= i < |es| && Canonicalize(es[i].name) == k;
      assert es[i] in es;
      CanonicalShape(es[i].name);
    }
  }

  lemma KeysOneLine(es: seq<Entry>)
    requires forall e | e in es :: OneLineEntry(e) && forall i | 0 <= i < |e.name| :: !IsSpace(e.name[i])
    ensures forall k | k in KeyOrder(es) :: '\n' !in k
  {
    KeyOrderKeys(es);
    forall k | k in KeyOrder(es)
      ensures '\n' !in k
    {
      var i :| 0 <= i < |es| && Canonicalize(es[i].name) == k;
      assert es[i] in es;
      CanonicalizeNoSpace(es[i].name);
      assert IsSpace('\n');
    }
  }

  lemma GroupOneLine(es: seq<Entry>, k: string)
    requires forall e | e in es :: OneLineEntry(e)
    ensures forall i | 0 <= i < |Group(es, k)| :: OneLineEntry(Group(es, k)[i])
  {
    var items := Group(es, k);
    forall i | 0 <= i < |items|
      ensures OneLineEntry(items[i])
    {
      GroupCount(es, k, items[i]);
      assert items[i] in multiset(items);
    }
  }

  /**
   * For the entries of any manifest, each file written holds exactly the lines of its page:
   * splitting its text at line breaks gives the page back.
   */
  lemma SiteFilesAreLines(manifest: seq<string>)
    ensures var es := Entries(manifest);
      && Split(Site(es)[IndexPath]) == RootPage(Sort(KeyOrder(es)))
      && forall k | k in KeyOrder(es) :: PagePath(k) in Site(es) && Split(Site(es)[PagePath(k)]) == PackagePage(k, Group(es, k))
  {
    var es := Entries(manifest);
    SiteContents(es);
    EntriesOneLine(manifest);
    EntriesShape(manifest);
    KeysOneLine(es);
    var keys := Sort(KeyOrder(es));
    SortCorrect(KeyOrder(es));
    forall i | 0 <= i < |keys|
      ensures '\n' !in keys[i]
    {
      assert keys[i] in multiset(keys);
    }
    RootPageOneLine(keys);
    SplitJoin(RootPage(keys));
    forall k | k in KeyOrder(es)
      ensures PagePath(k) in Site(es) && Split(Site(es)[PagePath(k)]) == PackagePage(k, Group(es, k))
    {
      GroupOneLine(es, k);
      PackagePageOneLine(k, Group(es, k));
      SplitJoin(PackagePage(k, Group(es, k)));
    }
  }

  // ---------------------------------------------------------------- write_index and main

  /**
   * The first loop of `write_index`: `packages.setdefault(canon, []).append(entry)` for each
   * entry; `order` is the insertion order of the keys of `packages`.
   */
  method GroupEntries(entries: seq<Entry>) returns (packages: map<string, seq<Entry>>, order: seq<string>)
    ensures order == KeyOrder(entries)
    ensures forall k :: k in packages <==> k in order
    ensures forall k | k in packages :: packages[k] == Group(entries, k)
  {
    packages, order := map[], [];
    for i := 0 to |entries|
      invariant order == KeyOrder(entries[..i])
      invariant forall k :: k in packages <==> k in order
      invariant forall k | k in packages :: packages[k] == Group(entries[..i], k)
    {
      assert entries[..i + 1][..i] == entries[..i];
      var canon := Canonicalize(entries[i].name);
      if canon !in packages {
        GroupNonEmpty(entries[..i], canon);
        packages := packages[canon := []];
        order := order + [canon];
      }
      packages := packages[canon := packages[canon] + [entries[i]]];
    }
    assert entries[..|entries|] == entries;
  }

  /** The lines of the root page, for the keys in the order given. */
  method RenderRoot(keys: seq<string>) returns (lines: seq<string>)
    ensures lines == RootPage(keys)
  {
    lines := RootHeader;
    for j := 0 to |keys|
      invariant lines == RootHeader + MapLines(RootItem, keys[..j])
    {
      MapLinesStep(RootHeader, RootItem, keys, j);
      lines := lines + [RootItem(keys[j])];
    }
    assert keys[..|keys|] == keys;
    lines := lines + Footer;
  }

  /** The lines of the page of `pkg`, listing `items`. */
  method RenderPackage(pkg: string, items: seq<Entry>) returns (lines: seq<string>)
    ensures lines == PackagePage(pkg, items)
  {
    var header := PackageHeader(pkg);
    lines := header;
    for t := 0 to |items|
      invariant lines == header + MapLines(ItemLine, items[..t])
    {
      MapLinesStep(header, ItemLine, items, t);
      lines := lines + [ItemLine(items[t])];
    }
    assert items[..|items|] == items;
    lines := lines + Footer;
  }

  /** `write_index(entries, outdir)`, with the files it writes returned as a map. */
  method WriteIndex(entries: seq<Entry>) returns (site: map<string, string>)
    ensures site == Site(entries)
  {
    var packages, order := GroupEntries(entries);
    var idxLines := RenderRoot(Sort(order));
    site := map[IndexPath := Join(idxLines)];
    for j := 0 to |order|
      invariant site == SiteAfter(entries, order[..j])
    {
      SiteAfterStep(entries, order, j);
      var pkg := order[j];
      var lines := RenderPackage(pkg, packages[pkg]);
      site := site[PagePath(pkg) := Join(lines)];
    }
    assert order[..|order|] == order;
  }

  /** How a run of the generator ends. */
  datatype Outcome = ManifestMissing | NoEntries | Written(site: map<string, string>)

  /**
   * `main()`: `manifest` is the manifest file split into lines, None when it does not
   * exist. A missing manifest and a manifest without entries write nothing.
   */
  method Generate(manifest: Option<seq<string>>) returns (outcome: Outcome)
    ensures manifest.None? <==> outcome == ManifestMissing
    ensures outcome == NoEntries <==> manifest.Some? && Entries(manifest.value) == []
    ensures outcome.Written? ==> manifest.Some? && outcome.site == Site(Entries(manifest.value))
  {
    if manifest.None? {
      return ManifestMissing;
    }
    var entries, _ := ParseManifest(manifest.value);
    if entries == [] {
      return NoEntries;
    }
    var site := WriteIndex(entries);
    return Written(site);
  }
}
