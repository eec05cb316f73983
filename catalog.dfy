/**
 * The catalog: the pages built from the scanned file names, and the
 * `getDocset` query that selects the pages of one version and locale.
 */
module Catalog {
  import opened Wrappers
  import opened PathDecoder

  /** The locale a query uses when none is given. */
  const DefaultLocale: string := "en-US"

  /** `r` is `s` with some elements dropped, the rest kept in order. */
  predicate IsSubsequence<T(==)>(r: seq<T>, s: seq<T>)
  {
    if r == [] then true
    else if s == [] then false
    else (r[0] == s[0] && IsSubsequence(r[1..], s[1..])) || IsSubsequence(r, s[1..])
  }

  /** Every sequence is a subsequence of itself extended at the front. */
  lemma {:induction false} SubsequenceOfCons<T>(r: seq<T>, x: T, s: seq<T>)
    requires IsSubsequence(r, s)
    ensures IsSubsequence(r, [x] + s)
  {
    assert ([x] + s)[1..] == s;
  }

  /** A file name counts as a document when it ends in `.md`. */
  predicate IsMarkdown(filename: string): (md: bool)
    ensures md <==> |filename| >= 3 && filename == filename[..|filename| - 3] + ".md"
  {
    |filename| >= 3 && filename[|filename| - 3..] == ".md"
  }

  /** Appending at the front keeps the `.md` ending. */
  lemma MarkdownSuffix(prefix: string, filename: string)
    requires IsMarkdown(filename)
    ensures IsMarkdown(prefix + filename)
  {
    var s := prefix + filename;
    assert s[|s| - 3..] == filename[|filename| - 3..];
  }

  /** The scanned names that end in `.md`, in scan order. */
  function Markdown(names: seq<string>): (kept: seq<string>)
    ensures forall f :: f in kept ==> f in names && IsMarkdown(f)
  {
    if names == [] then []
    else if IsMarkdown(names[0]) then [names[0]] + Markdown(names[1..])
    else Markdown(names[1..])
  }

  /** Every scanned `.md` name is kept, as often as it was scanned, and
      the kept names are in scan order. */
  lemma {:induction false} MarkdownKeepsAll(names: seq<string>)
    ensures forall f :: multiset(Markdown(names))[f] == if IsMarkdown(f) then multiset(names)[f] else 0
    ensures IsSubsequence(Markdown(names), names)
  {
    if names != [] {
      var rest := Markdown(names[1..]);
      MarkdownKeepsAll(names[1..]);
      assert names == [names[0]] + names[1..];
      SubsequenceOfCons(rest, names[0], names[1..]);
      if IsMarkdown(names[0]) {
        assert ([names[0]] + rest)[1..] == rest;
      }
    }
  }

  /** Filtering a concatenation filters each part. */
  lemma {:induction false} MarkdownConcat(a: seq<string>, b: seq<string>)
    ensures Markdown(a + b) == Markdown(a) + Markdown(b)
  {
    if a == [] {
      assert a + b == b;
    } else {
      MarkdownConcat(a[1..], b);
      var ab := a + b;
      assert ab != [] && ab[0] == a[0] && ab[1..] == a[1..] + b;
      if IsMarkdown(a[0]) {
        calc {
          Markdown(ab);
          [a[0]] + Markdown(a[1..] + b);
          [a[0]] + (Markdown(a[1..]) + Markdown(b));
          ([a[0]] + Markdown(a[1..])) + Markdown(b);
        }
      }
    }
  }

  /** A list of `.md` names is kept whole. */
  lemma {:induction false} MarkdownKeepsMarkdown(names: seq<string>)
    requires forall f :: f in names ==> IsMarkdown(f)
    ensures Markdown(names) == names
  {
    if names != [] {
      MarkdownKeepsMarkdown(names[1..]);
      assert names[0] in names;
      assert [names[0]] + names[1..] == names;
    }
  }

  /** One decoded page per name, in the same order. */
  function DecodeAll(root: string, names: seq<string>): (pages: seq<Page>)
    ensures |pages| == |names|
    ensures forall i :: 0 <= i < |names| ==> pages[i] == Decode(root, names[i])
  {
    if names == [] then [] else [Decode(root, names[0])] + DecodeAll(root, names[1..])
  }

  /** The catalog built from the names a scan of `root` produced. */
  function Pages(root: string, scanned: seq<string>): (pages: seq<Page>)
    ensures |pages| == |Markdown(scanned)|
    ensures forall i :: 0 <= i < |pages| ==> pages[i] == Decode(root, Markdown(scanned)[i])
  {
    DecodeAll(root, Markdown(scanned))
  }

  /** The pages are exactly the decodings of the scanned `.md` names, and
      every page's full path ends in `.md`. */
  lemma PagesAreMarkdown(root: string, scanned: seq<string>)
    ensures forall page :: page in Pages(root, scanned) <==>
      exists f :: f in scanned && IsMarkdown(f) && page == Decode(root, f)
    ensures forall page :: page in Pages(root, scanned) ==> IsMarkdown(page.fullPath)
  {
    var kept := Markdown(scanned);
    var pages := Pages(root, scanned);
    forall page | page in pages
      ensures exists f :: f in scanned && IsMarkdown(f) && page == Decode(root, f)
      ensures IsMarkdown(page.fullPath)
    {
      var i :| 0 <= i < |pages| && pages[i] == page;
      var f := kept[i];
      MarkdownSuffix(root + [Sep], f);
    }
    forall page | exists f :: f in scanned && IsMarkdown(f) && page == Decode(root, f)
      ensures page in pages
    {
      var f :| f in scanned && IsMarkdown(f) && page == Decode(root, f);
      MarkdownKeepsAll(scanned);
      assert f in multiset(scanned);
      assert f in multiset(kept);
      var i :| 0 <= i < |kept| && kept[i] == f;
      assert pages[i] == page;
    }
  }

  /** JavaScript truthiness of an optional string argument: absent and
      empty are falsy. */
  predicate Truthy(arg: Option<string>): (truthy: bool)
    ensures !truthy <==> arg == None || arg == Some("")
  {
    arg.Some? && arg.value != ""
  }

  /** The version a query selects: the given one, else the first known
      version; absent when neither exists. */
  function ResolveVersion(nodeMajor: Option<string>, nodeMajors: seq<string>): (version: Option<string>)
    ensures Truthy(nodeMajor) ==> version == nodeMajor
    ensures !Truthy(nodeMajor) && |nodeMajors| > 0 ==> version == Some(nodeMajors[0])
    ensures version == None <==> !Truthy(nodeMajor) && nodeMajors == []
  {
    if Truthy(nodeMajor) then nodeMajor
    else if |nodeMajors| > 0 then Some(nodeMajors[0])
    else None
  }

  /** The locale a query selects: the given one, else the default. */
  function ResolveLocale(locale: Option<string>): (loc: string)
    ensures loc != ""
    ensures Truthy(locale) ==> loc == locale.value
    ensures !Truthy(locale) ==> loc == DefaultLocale
  {
    if Truthy(locale) then locale.value else DefaultLocale
  }

  /** The first filter of `getDocset`: pages whose version equals `version`. */
  function WithVersion(pages: seq<Page>, version: Option<string>): (kept: seq<Page>)
    ensures forall page :: page in kept ==> page in pages && version == Some(page.nodeVersion)
  {
    if pages == [] then []
    else if version == Some(pages[0].nodeVersion) then [pages[0]] + WithVersion(pages[1..], version)
    else WithVersion(pages[1..], version)
  }

  /** The second filter of `getDocset`: pages whose locale equals `locale`. */
  function WithLocale(pages: seq<Page>, locale: string): (kept: seq<Page>)
    ensures forall page :: page in kept ==> page in pages && page.locale == Some(locale)
  {
    if pages == [] then []
    else if pages[0].locale == Some(locale) then [pages[0]] + WithLocale(pages[1..], locale)
    else WithLocale(pages[1..], locale)
  }

  /** A page belongs to the docset of `version` and `locale`. */
  predicate Matches(page: Page, version: Option<string>, locale: string)
  {
    version == Some(page.nodeVersion) && page.locale == Some(locale)
  }

  /** The docset as one filter over both conditions: exactly the matching
      pages, each as often as in `pages`, in their order there. */
  function Docset(pages: seq<Page>, version: Option<string>, locale: string): (docs: seq<Page>)
    ensures forall page :: page in docs ==> page in pages && Matches(page, version, locale)
  {
    if pages == [] then []
    else if Matches(pages[0], version, locale) then [pages[0]] + Docset(pages[1..], version, locale)
    else Docset(pages[1..], version, locale)
  }

  /** No matching page is left out of the docset: each occurs as often as
      in `pages`, and the docset keeps their order. */
  lemma {:induction false} DocsetComplete(pages: seq<Page>, version: Option<string>, locale: string)
    ensures forall page :: multiset(Docset(pages, version, locale))[page]
                         == (if Matches(page, version, locale) then multiset(pages)[page] else 0)
    ensures IsSubsequence(Docset(pages, version, locale), pages)
  {
    if pages != [] {
      var rest := Docset(pages[1..], version, locale);
      DocsetComplete(pages[1..], version, locale);
      assert pages == [pages[0]] + pages[1..];
      SubsequenceOfCons(rest, pages[0], pages[1..]);
      if Matches(pages[0], version, locale) {
        assert ([pages[0]] + rest)[1..] == rest;
      }
    }
  }

  /** A query nothing matches gives the empty docset. */
  lemma {:induction false} DocsetWithoutMatches(pages: seq<Page>, version: Option<string>, locale: string)
    requires forall page :: page in pages ==> !Matches(page, version, locale)
    ensures Docset(pages, version, locale) == []
  {
    if pages != [] {
      assert pages[0] in pages;
      DocsetWithoutMatches(pages[1..], version, locale);
    }
  }

  /** The two chained filters select what the single conjunctive one does. */
  lemma {:induction false} ChainedFilters(pages: seq<Page>, version: Option<string>, locale: string)
    ensures WithLocale(WithVersion(pages, version), locale) == Docset(pages, version, locale)
  {
    if pages != [] {
      ChainedFilters(pages[1..], version, locale);
      if version == Some(pages[0].nodeVersion) {
        assert WithVersion(pages, version)[0] == pages[0];
        assert WithVersion(pages, version)[1..] == WithVersion(pages[1..], version);
      }
    }
  }

  /** `getDocset(nodeMajor, locale)`: falsy arguments are replaced by the
      first known version and by `en-US`, then the pages are filtered on
      version and on locale. */
  function GetDocset(pages: seq<Page>, nodeMajors: seq<string>, nodeMajor: Option<string>, locale: Option<string>): (docs: seq<Page>)
    ensures docs == Docset(pages, ResolveVersion(nodeMajor, nodeMajors), ResolveLocale(locale))
  {
    var version := ResolveVersion(nodeMajor, nodeMajors);
    var loc := ResolveLocale(locale);
    ChainedFilters(pages, version, loc);
    WithLocale(WithVersion(pages, version), loc)
  }

  /** Soundness, completeness and order of a query with explicit arguments. */
  lemma GetDocsetExact(pages: seq<Page>, nodeMajors: seq<string>, version: string, locale: string)
    requires version != "" && locale != ""
    ensures var docs := GetDocset(pages, nodeMajors, Some(version), Some(locale));
      && (forall page :: page in docs ==> page.nodeVersion == version && page.locale == Some(locale))
      && (forall page :: page in pages && page.nodeVersion == version && page.locale == Some(locale) ==> page in docs)
      && IsSubsequence(docs, pages)
  {
    var docs := GetDocset(pages, nodeMajors, Some(version), Some(locale));
    DocsetComplete(pages, Some(version), locale);
    forall page | page in pages && page.nodeVersion == version && page.locale == Some(locale)
      ensures page in docs
    {
      assert multiset(docs)[page] == multiset(pages)[page];
    }
  }

  /** Falsy arguments default, each on its own: a falsy version to the
      first known one, a falsy locale to `en-US`. */
  lemma GetDocsetDefaults(pages: seq<Page>, nodeMajors: seq<string>, nodeMajor: Option<string>, locale: Option<string>)
    ensures !Truthy(nodeMajor) && |nodeMajors| > 0 ==>
      GetDocset(pages, nodeMajors, nodeMajor, locale) == GetDocset(pages, nodeMajors, Some(nodeMajors[0]), locale)
    ensures !Truthy(locale) ==>
      GetDocset(pages, nodeMajors, nodeMajor, locale) == GetDocset(pages, nodeMajors, nodeMajor, Some(DefaultLocale))
    ensures !Truthy(nodeMajor) && !Truthy(locale) && |nodeMajors| > 0 ==>
      GetDocset(pages, nodeMajors, nodeMajor, locale) == Docset(pages, Some(nodeMajors[0]), DefaultLocale)
  {
  }

  /** With no known versions and no version given, nothing matches. */
  lemma NoKnownVersions(pages: seq<Page>, nodeMajor: Option<string>, locale: Option<string>)
    requires !Truthy(nodeMajor)
    ensures GetDocset(pages, [], nodeMajor, locale) == []
  {
    DocsetWithoutMatches(pages, None, ResolveLocale(locale));
  }

  /** Every page a query returns was built from a scanned `.md` name. */
  lemma QueriesReturnMarkdown(root: string, scanned: seq<string>, nodeMajors: seq<string>, nodeMajor: Option<string>, locale: Option<string>)
    ensures forall page :: page in GetDocset(Pages(root, scanned), nodeMajors, nodeMajor, locale) ==>
      IsMarkdown(page.fullPath) && exists f :: f in scanned && IsMarkdown(f) && page == Decode(root, f)
  {
    PagesAreMarkdown(root, scanned);
  }

  /** The scanned names of the scenario below: four documents and one
      image, as `<version>/<locale>/<path>`. */
  predicate IsScenario(names: seq<string>)
  {
    names == [
      "18" + [Sep] + "en-US" + [Sep] + "guide.md",
      "18" + [Sep] + "en-US" + [Sep] + "api/fs.md",
      "18" + [Sep] + "es-ES" + [Sep] + "guide.md",
      "20" + [Sep] + "en-US" + [Sep] + "guide.md",
      "20" + [Sep] + "en-US" + [Sep] + "logo.png"]
  }

  /** Only the image is dropped from the scenario's names. */
  lemma ScenarioMarkdown(names: seq<string>)
    requires IsScenario(names)
    ensures Markdown(names) == names[..4]
  {
    MarkdownSuffix("18" + [Sep] + "en-US" + [Sep], "guide.md");
    MarkdownSuffix("18" + [Sep] + "en-US" + [Sep], "api/fs.md");
    MarkdownSuffix("18" + [Sep] + "es-ES" + [Sep], "guide.md");
    MarkdownSuffix("20" + [Sep] + "en-US" + [Sep], "guide.md");
    MarkdownKeepsMarkdown(names[..4]);
    assert names[4][|names[4]| - 3] == 'p';
    assert Markdown([names[4]]) == [];
    MarkdownConcat(names[..4], [names[4]]);
    assert names[..4] + [names[4]] == names;
  }

  /** Four pages in the scenario's order: `guide.md` and `api/fs.md` of
      `18`/`en-US`, `guide.md` of `18`/`es-ES`, `guide.md` of `20`/`en-US`. */
  predicate IsScenarioCatalog(pages: seq<Page>)
  {
    && |pages| == 4
    && pages[0].nodeVersion == "18" && pages[0].locale == Some("en-US") && pages[0].filePath == "guide.md"
    && pages[1].nodeVersion == "18" && pages[1].locale == Some("en-US") && pages[1].filePath == "api/fs.md"
    && pages[2].nodeVersion == "18" && pages[2].locale == Some("es-ES") && pages[2].filePath == "guide.md"
    && pages[3].nodeVersion == "20" && pages[3].locale == Some("en-US") && pages[3].filePath == "guide.md"
  }

  /** The scenario's catalog holds one page per document, in scan order. */
  lemma ScenarioPages(root: string, names: seq<string>)
    requires IsScenario(names)
    ensures IsScenarioCatalog(Pages(root, names))
  {
    ScenarioMarkdown(names);
    var pages := Pages(root, names);
    DecodeThreeSegments(root, "18", "en-US", "guide.md");
    DecodeThreeSegments(root, "18", "en-US", "api/fs.md");
    DecodeThreeSegments(root, "18", "es-ES", "guide.md");
    DecodeThreeSegments(root, "20", "en-US", "guide.md");
  }

  /** The scenario's queries, with `20` the latest known version: the
      defaults pick the one `20`/`en-US` page, `18`/`en-US` gives its two
      pages in scan order, and an unused locale gives nothing. */
  lemma ScenarioQueries(pages: seq<Page>)
    requires IsScenarioCatalog(pages)
    ensures GetDocset(pages, ["20", "18"], None, None) == [pages[3]]
    ensures GetDocset(pages, ["20", "18"], Some("18"), Some("en-US")) == [pages[0], pages[1]]
    ensures GetDocset(pages, ["20", "18"], Some("18"), Some("fr-FR")) == []
  {
    assert Matches(pages[3], Some("20"), "en-US");
    assert !Matches(pages[2], Some("20"), "en-US");
    assert !Matches(pages[1], Some("20"), "en-US");
    assert !Matches(pages[0], Some("20"), "en-US");
    assert !Matches(pages[3], Some("18"), "en-US");
    assert !Matches(pages[2], Some("18"), "en-US");
    assert Matches(pages[1], Some("18"), "en-US");
    assert Matches(pages[0], Some("18"), "en-US");
    assert Docset(pages[4..], Some("20"), "en-US") == [];
    assert Docset(pages[3..], Some("20"), "en-US") == [pages[3]];
    assert Docset(pages[2..], Some("20"), "en-US") == [pages[3]];
    assert Docset(pages[1..], Some("20"), "en-US") == [pages[3]];
    assert Docset(pages[4..], Some("18"), "en-US") == [];
    assert Docset(pages[3..], Some("18"), "en-US") == [];
    assert Docset(pages[2..], Some("18"), "en-US") == [];
    assert Docset(pages[1..], Some("18"), "en-US") == [pages[1]];
    DocsetWithoutMatches(pages, Some("18"), "fr-FR");
  }

  /** The whole scenario: five scanned names make four pages, queried as above. */
  lemma FourDocumentScenario(root: string, names: seq<string>)
    requires IsScenario(names)
    ensures var pages := Pages(root, names);
      && |pages| == 4
      && GetDocset(pages, ["20", "18"], None, None) == [pages[3]]
      && GetDocset(pages, ["20", "18"], Some("18"), Some("en-US")) == [pages[0], pages[1]]
      && GetDocset(pages, ["20", "18"], Some("18"), Some("fr-FR")) == []
  {
    ScenarioPages(root, names);
    ScenarioQueries(Pages(root, names));
  }
}
