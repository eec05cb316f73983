/**
 * The path decoder: a file name relative to the content directory,
 * `<nodeVersion>/<locale>/<filePath>`, becomes a page record.
 */
module PathDecoder {
  import opened Wrappers
  import opened Segments

  /** The path separator, fixed to the POSIX one. */
  const Sep: char := '/'

  /** One indexed document. `locale` is absent when the file name has
      fewer than two segments (the JavaScript value is then `undefined`). */
  datatype Page = Page(locale: Option<string>, nodeVersion: string, filePath: string, fullPath: string)

  /** The location of `filename` below the content directory `root`. */
  function FullPath(root: string, filename: string): (full: string)
    ensures |full| == |root| + 1 + |filename|
    ensures full[..|root|] == root && full[|root|] == Sep
    ensures full[|root| + 1..] == filename
  {
    root + [Sep] + filename
  }

  /** Decodes a relative file name: segment 0 is the version, segment 1 the
      locale, and the remaining segments, rejoined, the path within them. */
  function Decode(root: string, filename: string): (page: Page)
    ensures Sep !in page.nodeVersion
    ensures page.locale.Some? ==> Sep !in page.locale.value
    ensures page.fullPath == FullPath(root, filename)
  {
    var segs := Split(filename, Sep);
    Page(
      locale := if |segs| > 1 then Some(segs[1]) else None,
      nodeVersion := segs[0],
      filePath := Join(if |segs| > 2 then segs[2..] else [], Sep),
      fullPath := FullPath(root, filename))
  }

  /** A file name of three or more segments decodes into its parts: the
      first two segments, and everything after the second separator. */
  lemma DecodeThreeSegments(root: string, version: string, locale: string, rest: string)
    requires Sep !in version && Sep !in locale
    ensures Decode(root, version + [Sep] + locale + [Sep] + rest)
         == Page(Some(locale), version, rest, FullPath(root, version + [Sep] + locale + [Sep] + rest))
  {
    var filename := version + [Sep] + locale + [Sep] + rest;
    assert filename == version + [Sep] + (locale + [Sep] + rest);
    SplitAtFirstSep(version, Sep, locale + [Sep] + rest);
    SplitAtFirstSep(locale, Sep, rest);
    var segs := Split(filename, Sep);
    assert segs == [version] + ([locale] + Split(rest, Sep));
    assert segs[2..] == Split(rest, Sep);
    JoinSplit(rest, Sep);
  }

  /** A file name of exactly two segments has a locale and an empty path. */
  lemma DecodeTwoSegments(root: string, version: string, locale: string)
    requires Sep !in version && Sep !in locale
    ensures Decode(root, version + [Sep] + locale)
         == Page(Some(locale), version, "", FullPath(root, version + [Sep] + locale))
  {
    SplitAtFirstSep(version, Sep, locale);
    SplitWithoutSep(locale, Sep);
    assert Split(version + [Sep] + locale, Sep) == [version, locale];
  }

  /** A file name without a separator is all version: the locale is
      absent and the path empty. */
  lemma DecodeOneSegment(root: string, filename: string)
    requires Sep !in filename
    ensures Decode(root, filename) == Page(None, filename, "", FullPath(root, filename))
  {
    SplitWithoutSep(filename, Sep);
  }

  /** For a file name of at least three segments, the decoded fields
      reassemble into the file name. */
  lemma DecodeReassembles(root: string, filename: string)
    requires |Split(filename, Sep)| >= 3
    ensures Decode(root, filename).locale.Some?
    ensures var page := Decode(root, filename);
      page.nodeVersion + [Sep] + page.locale.value + [Sep] + page.filePath == filename
  {
    var segs := Split(filename, Sep);
    JoinSplit(filename, Sep);
    JoinCons(segs[1], segs[2..], Sep);
    assert [segs[1]] + segs[2..] == segs[1..];
    JoinCons(segs[0], segs[1..], Sep);
    assert [segs[0]] + segs[1..] == segs;
  }
}
