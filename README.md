# Documentation catalog by Node.js version and locale

A Dafny model of `index.js`, a module that indexes a tree of Markdown
documentation laid out as `<nodeVersion>/<locale>/<path>.md` below a
`content` directory, and answers `getDocset(nodeMajor, locale)`: the pages
of one Node.js major version in one locale, in scan order.

The model has three parts:

- `Segments` (`segments.dfy`): `Split` and `Join` on a separator
  character, with JavaScript's `split`/`join` behaviour. That means the
  empty string splits into one empty segment, and two adjacent separators
  give an empty segment between them. Both round trips are proved.
- `PathDecoder` (`decoder.dfy`): the `Page` record
  `{locale, nodeVersion, filePath, fullPath}` and `Decode`, the `map`
  callback that builds one page from a relative file name. A file name
  with fewer than two segments has no second segment, and JavaScript
  yields `undefined` for it. The model keeps that case and does not
  forbid it: `locale` is an `Option<string>`, and such a name gives
  `None`.
- `Catalog` (`catalog.dfy`): `Pages`, the `.md` filter followed by
  decoding, and `GetDocset`. `GetDocset` first substitutes defaults for
  falsy arguments (absent or empty). It then applies the two chained
  filters, one on version and one on locale. Their result is proved equal
  to `Docset`, a single filter on both conditions. `Docset` is in turn
  characterised as the order-preserving subsequence holding every
  matching page exactly as often as `pages` does.

The module's state is the `pages` array, built once when the module loads
and never changed afterwards. It becomes a value: `Pages(root, scanned)`,
where `scanned` is the list of relative file names that the directory walk
produced. Every operation is a function of its arguments. `GetDocset`
therefore cannot change `pages`, and equal arguments always give equal
results; no lemma is needed to state either fact. The list of known
versions (`nodeMajors`) is an input `seq<string>`. It stands for the list
that `Object.keys(nodeVersions)` returns for the `nodeVersions` object of
`package.json`: integer-like keys first in ascending numeric order, then
the other keys in insertion order. Its first entry is the default
version.

## Model

| member | source | states |
|---|---|---|
| `Segments.Split` | index.js:10-12 | a split gives at least one segment, and no segment contains the separator |
| `Segments.Join` | index.js:12 | the first segment starts the joined string; with separator-free segments, the joined string contains the separator exactly when there are two or more segments; `JoinSplit` and `SplitJoin` make it the inverse of `Split` |
| `Segments.JoinSplit` | index.js:10-12 | joining the segments of a split with the same separator gives back the original string exactly |
| `Segments.SplitJoin` | index.js:10-12 | splitting a join of one or more separator-free segments gives back those segments |
| `PathDecoder.FullPath` | index.js:9 | the full path starts with the content root, then one separator, then the whole relative name, and has no other characters; every full path therefore lies beneath the root |
| `PathDecoder.Decode` | index.js:8-14 | the decoded version and locale never contain the separator; `fullPath` is the root joined with the file name |
| `PathDecoder.DecodeThreeSegments` | index.js:9-13 | a name `v/l/rest` with separator-free `v` and `l` decodes to version `v`, locale `l` and file path `rest` (rest may contain further separators) |
| `PathDecoder.DecodeTwoSegments` | index.js:10-12 | a name `v/l` decodes to version `v`, locale `l` and the empty file path |
| `PathDecoder.DecodeOneSegment` | index.js:10-12 | a name without a separator is all version, with no locale (JavaScript's `undefined`) and the empty file path |
| `PathDecoder.DecodeReassembles` | index.js:10-12 | for a name of three or more segments, `nodeVersion + sep + locale + sep + filePath` is the name again |
| `Catalog.IsMarkdown` | index.js:7 | a name is a document exactly when it is some prefix followed by `.md` |
| `Catalog.MarkdownSuffix` | index.js:7 | putting any prefix in front of a `.md` name keeps the `.md` ending |
| `Catalog.Markdown` | index.js:7 | every kept name was scanned and ends in `.md` |
| `Catalog.MarkdownKeepsAll` | index.js:6-7 | every scanned `.md` name is kept as often as it was scanned, no other name is kept, and the kept names are in scan order (a subsequence of the scan) |
| `Catalog.MarkdownConcat` | index.js:7 | the `.md` filter of a concatenation is the concatenation of the filters |
| `Catalog.MarkdownKeepsMarkdown` | index.js:7 | a list of `.md` names passes the filter unchanged |
| `Catalog.DecodeAll` | index.js:8-14 | decoding keeps the length and the order: page `i` is the decoding of name `i` |
| `Catalog.Pages` | index.js:6-14 | the catalog has one page per kept `.md` name, in scan order, and page `i` is the decoding of kept name `i` |
| `Catalog.PagesAreMarkdown` | index.js:6-14 | a page is in the catalog if and only if it is the decoding of some scanned `.md` name; every page's full path ends in `.md` |
| `Catalog.Truthy` | index.js:23-24 | a string argument is falsy exactly when it is absent or empty |
| `Catalog.ResolveVersion` | index.js:23 | a truthy version is kept; a falsy one becomes the first known version; the result is absent exactly when the version is falsy and no version is known; `GetDocsetDefaults` states the effect on queries |
| `Catalog.ResolveLocale` | index.js:24 | a truthy locale is kept and a falsy one becomes `en-US`, so the resolved locale is never empty |
| `Catalog.WithVersion` | index.js:27 | every kept page is from `pages` and has the requested version; `ChainedFilters` proves completeness and order |
| `Catalog.WithLocale` | index.js:28 | every kept page is from `pages` and has the requested locale; `ChainedFilters` proves completeness and order |
| `Catalog.Docset` | index.js:26-28 | every page of the docset is in `pages` and matches both the version and the locale |
| `Catalog.DocsetComplete` | index.js:26-28 | each matching page is in the docset exactly as often as in `pages`, each non-matching page never, and the docset keeps the order of `pages` |
| `Catalog.DocsetWithoutMatches` | index.js:26-28 | when no page matches, the result is the empty sequence and not an error |
| `Catalog.ChainedFilters` | index.js:26-28 | filtering on version and then on locale gives the same sequence as one filter on both conditions |
| `Catalog.GetDocset` | index.js:21-29 | the query returns the single-filter docset for the resolved version and locale |
| `Catalog.GetDocsetExact` | index.js:21-29 | with a non-empty version `v` and locale `l`, every result has version `v` and locale `l`, every such page of `pages` is in the result, and the result is a subsequence of `pages` |
| `Catalog.GetDocsetDefaults` | index.js:22-24 | a falsy version acts as the first known version, and a falsy locale acts as `en-US`, each independently of the other argument |
| `Catalog.NoKnownVersions` | index.js:23-28 | with no known versions and no version given, the query returns the empty sequence |
| `Catalog.QueriesReturnMarkdown` | index.js:6-28 | every page any query returns over the catalog was decoded from a scanned `.md` name, and its full path ends in `.md` |
| `Catalog.ScenarioMarkdown` | index.js:7 | of the example names, only the `.png` file is dropped |
| `Catalog.ScenarioPages` | index.js:6-14 | the example's four documents become four pages in scan order, with the expected versions, locales and file paths (`api/fs.md` keeps its inner separator) |
| `Catalog.ScenarioQueries` | index.js:21-29 | with known versions `["20", "18"]`: the defaults give the single `20`/`en-US` page; `18`/`en-US` gives its two pages in scan order; `18`/`fr-FR` gives nothing |
| `Catalog.FourDocumentScenario` | index.js:6-29 | the example scan yields four pages, and the three queries above give exactly those results |

## Left out

- The recursive directory walk (`walk-sync`, index.js:2 and index.js:6) is filesystem I/O in a library that is not part of this model. The names it returns are the input `scanned`. A failing walk, which would abort module loading, is not modelled.
- Reading `../package.json` and taking `Object.keys` of `nodeVersions` (index.js:3-4) is external configuration. The resulting list is the input `nodeMajors`.
- Whether the default version is really the latest, as the comment at index.js:23 says, depends on the key order of `nodeVersions`. For integer-like keys such as `18` and `20`, `Object.keys` lists them in ascending order, so the first entry is the lowest version. The model takes the list as given and does not claim it is the latest.
- `path.sep` is platform-dependent. The model fixes the separator to `/` (`PathDecoder.Sep`). It therefore does not model a Windows host where walked names and `path.sep` could disagree.
- `PathDecoder.FullPath`: `path.join` normalises its result, collapsing `.`/`..` segments and repeated separators. The model's full path is the plain concatenation of root, separator and name.
- `getDocset` is declared `async` (index.js:21), but it never suspends. The model is a plain function, and the promise wrapper is not modelled.
- The arguments of `getDocset` are modelled as absent or a string (`Option<string>`). Other falsy values (`null`, `0`, `false`, `NaN`) behave like absent. Other truthy non-string values (a number such as `18`) never equal a string under `===`. Neither case is modelled.
- The one-time module initialisation and `module.exports` (index.js:16-19) are runtime plumbing. `Pages` stands for the exported array. Callers mutating that array is not modelled.
