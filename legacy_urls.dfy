/**
 * The module-level `urlTo` and `filenameOf` of the two older variants
 * (MPA/webpack.common.js and dir.js hold the same code). Both ignore their
 * `fromEntries` parameter and look the name up in the module's own
 * `entries`, whose values are root-relative (`.\about\about.js`); there is
 * no fallback, so a name that is not a key reaches `path.dirname(undefined)`,
 * which throws.
 */
module LegacyUrls {
  import opened Wrappers
  import opened JsString
  import opened NodePath
  import opened Discovery
  import opened WebpackUtils
  import JsObject

  /**
   * The `TypeError`s these functions can throw: `path.dirname(undefined)`,
   * with the name that was looked up, and calling `replaceAll` on an engine
   * that lacks it before the polyfill is installed.
   */
  datatype TypeError = DirnameOfUndefined(entryName: string) | ReplaceAllNotAFunction

  /**
   * `urlTo(entryName)`: the directory of `entries[entryName]` with '/'
   * separators, its first '.' and then one leading '/' removed; an error
   * exactly when the name is not a key.
   */
  function UrlTo(entryName: string, moduleEntries: Entries): (r: Result<string, TypeError>)
    ensures r.Err? <==> entryName !in JsObject.Keys(moduleEntries)
    ensures r.Err? ==> r.error == DirnameOfUndefined(entryName)
  {
    match JsObject.Get(moduleEntries, entryName)
    case None => Err(DirnameOfUndefined(entryName))
    case Some(entryPath) => Ok(WebSegment(Dirname(entryPath)))
  }

  /** `filenameOf(entryName)`: the bundle name under the entry's URL segment, failing where `urlTo` does. */
  function FilenameOf(entryName: string, moduleEntries: Entries): (r: Result<string, TypeError>)
    ensures r.Err? <==> entryName !in JsObject.Keys(moduleEntries)
  {
    match UrlTo(entryName, moduleEntries)
    case Err(e) => Err(e)
    case Ok(url) => Ok(UnderUrl(url, entryName + BundleSuffix))
  }

  /** What the scan stores for `root\rel\f` once the root is replaced by `.`: the path `.\rel\f`. */
  lemma RootRelativeValue(root: string, rel: string, f: string)
    ensures EntryValue(RootRelative, root, Resolve(Resolve(root, rel), f)) == Resolve(Resolve(".", rel), f)
  {
    var tail := [Sep] + rel + [Sep] + f;
    assert Resolve(Resolve(root, rel), f) == root + tail;
    ReplacePrefix(root, tail, ".");
    assert "." + tail == Resolve(Resolve(".", rel), f);
  }

  /** The root's `index.js`, stored as `.\index.js`, has the empty URL segment and an unprefixed bundle. */
  lemma UrlToRootEntry(entryName: string, moduleEntries: Entries, fileName: string)
    requires Sep !in fileName
    requires JsObject.Get(moduleEntries, entryName) == Some(Resolve(".", fileName))
    ensures UrlTo(entryName, moduleEntries) == Ok("")
    ensures FilenameOf(entryName, moduleEntries) == Ok(entryName + BundleSuffix)
  {
    DirnameOfResolve(".", fileName);
    assert SubstituteChar(".", Sep, "/") == ".";
    ReplacePrefix(".", "", "");
    assert "." + "" == ".";
  }

  /** The web form of the directory `.\rel`: `rel` with '/' separators, as only the leading '.' is removed. */
  lemma SegmentOfRelativeDir(rel: string)
    ensures WebSegment(Resolve(".", rel)) == SubstituteChar(rel, Sep, "/")
  {
    var s := SubstituteChar(rel, Sep, "/");
    assert Resolve(".", rel) == "." + ([Sep] + rel);
    SubstituteCharAppend(".", [Sep] + rel, Sep, "/");
    SubstituteCharAppend([Sep], rel, Sep, "/");
    assert SubstituteChar([Sep], Sep, "/") == "/";
    assert SubstituteChar(".", Sep, "/") == ".";
    ReplacePrefix(".", "/" + s, "");
    assert "" + ("/" + s) == "/" + s;
    assert ("/" + s)[1..] == s;
  }

  /**
   * An entry stored as `.\rel\f` has the URL segment `rel` with '/'
   * separators: the '.' removed is the leading one, so dots inside `rel`
   * survive.
   */
  lemma UrlToNested(entryName: string, moduleEntries: Entries, rel: string, fileName: string)
    requires Sep !in fileName
    requires JsObject.Get(moduleEntries, entryName) == Some(Resolve(Resolve(".", rel), fileName))
    ensures UrlTo(entryName, moduleEntries) == Ok(SubstituteChar(rel, Sep, "/"))
  {
    DirnameOfResolve(Resolve(".", rel), fileName);
    SegmentOfRelativeDir(rel);
  }

  /** A non-empty directory name gives a non-empty URL segment. */
  lemma SegmentNonEmpty(rel: string)
    requires rel != []
    ensures SubstituteChar(rel, Sep, "/") != []
  {
    assert |if rel[0] == Sep then "/" else [rel[0]]| == 1;
  }

  /** The bundle of an entry stored as `.\rel\f`, `rel` non-empty, is written under `rel` with '/' separators. */
  lemma FilenameOfNested(entryName: string, moduleEntries: Entries, rel: string, fileName: string)
    requires Sep !in fileName && rel != []
    requires JsObject.Get(moduleEntries, entryName) == Some(Resolve(Resolve(".", rel), fileName))
    ensures FilenameOf(entryName, moduleEntries) == Ok(SubstituteChar(rel, Sep, "/") + "/" + entryName + BundleSuffix)
  {
    var s := SubstituteChar(rel, Sep, "/");
    UrlToNested(entryName, moduleEntries, rel, fileName);
    assert FilenameOf(entryName, moduleEntries) == Ok(UnderUrl(s, entryName + BundleSuffix));
    SegmentNonEmpty(rel);
    assert UnderUrl(s, entryName + BundleSuffix) == s + "/" + entryName + BundleSuffix;
  }
}
