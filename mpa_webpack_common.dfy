/**
 * MPA/webpack.common.js beyond what it shares with the other variants: the
 * bundler's output `filename` hook, and its `pages`, whose `filename` comes
 * from `urlTo(entries)` (the entries object itself used as the entry name)
 * and whose chunks are the entry alone. Discovery is
 * `Discovery.DiscoverEntries` with `ValueStyle.RootRelative`; `urlTo` and
 * `filenameOf` are those of `LegacyUrls`.
 */
module MpaWebpackCommon {
  import opened Wrappers
  import opened NodePath
  import opened Discovery
  import WebpackUtils
  import opened LegacyUrls
  import JsObject

  /** The fixed output name of the `index` chunk: no content hash, no directory. */
  const IndexBundle: string := "index.bundle.js"

  /** The output `filename` hook: chunk `index` gets the fixed name, every other chunk `filenameOf(name)`. */
  function OutputFilename(chunkName: string, moduleEntries: Entries): (r: Result<string, TypeError>)
    ensures chunkName == "index" ==> r == Ok(IndexBundle)
    ensures chunkName != "index" ==> r == FilenameOf(chunkName, moduleEntries)
  {
    if chunkName == "index" then Ok(IndexBundle) else FilenameOf(chunkName, moduleEntries)
  }

  /**
   * The root `index.js`, stored as `.\index.js`, is written as
   * `index.bundle.js`, where `filenameOf` would have added the content hash.
   */
  lemma IndexChunkWithoutHash(moduleEntries: Entries, fileName: string)
    requires Sep !in fileName
    requires JsObject.Get(moduleEntries, "index") == Some(Resolve(".", fileName))
    ensures OutputFilename("index", moduleEntries) == Ok("index.bundle.js")
    ensures FilenameOf("index", moduleEntries) == Ok("index" + WebpackUtils.BundleSuffix)
  {
    UrlToRootEntry("index", moduleEntries, fileName);
  }

  /** Every other chunk stored as `.\rel\f` goes under `rel`, with the content hash. */
  lemma OutputFilenameNested(chunkName: string, moduleEntries: Entries, rel: string, fileName: string)
    requires chunkName != "index" && Sep !in fileName && rel != []
    requires JsObject.Get(moduleEntries, chunkName) == Some(Resolve(Resolve(".", rel), fileName))
    ensures OutputFilename(chunkName, moduleEntries) ==
      Ok(JsString.SubstituteChar(rel, Sep, "/") + "/" + chunkName + WebpackUtils.BundleSuffix)
  {
    FilenameOfNested(chunkName, moduleEntries, rel, fileName);
  }

  /** `String(entries)`: the property name `entries[entries]` looks up. */
  const ObjectKey: string := "[object Object]"

  /** The descriptor this variant's `pages` builds for one entry, given the URL it computed. */
  function PageOf(entryName: string, entryPath: string, url: string, contextPath: string, fileExists: string -> bool): WebpackUtils.Page {
    WebpackUtils.Page(WebpackUtils.TemplateOf(fileExists, entryName, entryPath, contextPath), Some(WebpackUtils.UnderUrl(url, "index.html")), [entryName])
  }

  /**
   * `pages(entries, contextPath)` as written: the map evaluates
   * `urlTo(entries)` for its first entry, so any non-empty entries object
   * fails unless the module's entries hold the key "[object Object]", and
   * then every page gets the `filename` of that key's URL. Chunks are the entry alone;
   * templates are chosen as in the exported variant.
   *
   * The configuration object calls `pages(entries)` while the module loads,
   * before the `replaceAll` polyfill further down the file is installed, so
   * `urlTo` reaches the engine's own `String.prototype.replaceAll`:
   * `nativeReplaceAll` says whether the engine has one (for a one-character
   * pattern it agrees with the polyfill). Without it, a lookup that succeeds
   * throws when `replaceAll` is called.
   */
  function Pages(entries: Entries, moduleEntries: Entries, contextPath: string, fileExists: string -> bool, nativeReplaceAll: bool): (r: Result<seq<WebpackUtils.Page>, TypeError>)
    ensures r.Err? <==> entries != [] && (ObjectKey !in JsObject.Keys(moduleEntries) || !nativeReplaceAll)
    ensures r.Err? && ObjectKey !in JsObject.Keys(moduleEntries) ==> r.error == DirnameOfUndefined(ObjectKey)
    ensures r.Err? && ObjectKey in JsObject.Keys(moduleEntries) ==> r.error == ReplaceAllNotAFunction
    ensures r.Ok? ==> |r.value| == |entries|
    ensures r.Ok? ==> forall i :: 0 <= i < |entries| ==>
      r.value[i].chunks == [entries[i].0] &&
      r.value[i].template == WebpackUtils.Pages(entries, contextPath, fileExists)[i].template &&
      r.value[i].filename == Some(WebpackUtils.UnderUrl(UrlTo(ObjectKey, moduleEntries).value, "index.html"))
  {
    if entries == [] then Ok([])
    else
      match UrlTo(ObjectKey, moduleEntries)
      case Err(e) => Err(e)
      case Ok(url) =>
        if !nativeReplaceAll then Err(ReplaceAllNotAFunction)
        else Ok(seq(|entries|, i requires 0 <= i < |entries| => PageOf(entries[i].0, entries[i].1, url, contextPath, fileExists)))
  }

  /**
   * The smallest project shows the defect: with only the root `index.js`,
   * stored as `.\index.js`, the build configuration throws instead of
   * producing the page `index.html`, on any engine.
   */
  lemma PagesThrowForIndexAlone(contextPath: string, fileExists: string -> bool, nativeReplaceAll: bool)
    ensures var entries := [("index", Resolve(".", "index.js"))];
      Pages(entries, entries, contextPath, fileExists, nativeReplaceAll) == Err(DirnameOfUndefined(ObjectKey))
  {
    var entries := [("index", Resolve(".", "index.js"))];
    assert JsObject.Keys(entries) == ["index"];
    assert ObjectKey != "index";
  }

  /**
   * `names.map(f)` where `f` may throw: the results in order, or the error of
   * the first name on which `f` fails.
   */
  function MapUntilError(names: seq<string>, f: string -> Result<string, TypeError>): (r: Result<seq<string>, TypeError>)
    ensures r.Ok? <==> forall i :: 0 <= i < |names| ==> f(names[i]).Ok?
    ensures r.Ok? ==> |r.value| == |names|
  {
    if names == [] then Ok([])
    else
      var rest := MapUntilError(names[1..], f);
      assert forall i :: 1 <= i < |names| ==> names[1..][i - 1] == names[i];
      if f(names[0]).Err? then Err(f(names[0]).error)
      else if rest.Err? then Err(rest.error)
      else Ok([f(names[0]).value] + rest.value)
  }

  /** When no name fails, result `i` is `f` of name `i`. */
  lemma {:induction false} MapUntilErrorAt(names: seq<string>, f: string -> Result<string, TypeError>, i: nat)
    requires MapUntilError(names, f).Ok? && i < |names|
    ensures MapUntilError(names, f).value[i] == f(names[i]).value
  {
    var rest := MapUntilError(names[1..], f);
    assert rest.Ok? && MapUntilError(names, f).value == [f(names[0]).value] + rest.value;
    if i > 0 {
      assert names[1..][i - 1] == names[i];
      MapUntilErrorAt(names[1..], f, i - 1);
    }
  }

  /**
   * `pages` as evidently intended, calling `urlTo(entryName)` per entry (as
   * the exported variant does): the map fails at the first entry whose name
   * the module's entries do not hold (computing a template never throws, so
   * the URLs decide). This also takes a `replaceAll` to be available when
   * the configuration is built: the polyfill installed before `entries` is
   * computed, or an engine with a native one.
   */
  function IntendedPages(entries: Entries, moduleEntries: Entries, contextPath: string, fileExists: string -> bool): (r: Result<seq<WebpackUtils.Page>, TypeError>)
    ensures r.Ok? <==> forall i :: 0 <= i < |entries| ==> entries[i].0 in JsObject.Keys(moduleEntries)
    ensures r.Ok? ==> |r.value| == |entries|
  {
    var names := JsObject.Keys(entries);
    assert forall i :: 0 <= i < |entries| ==> (UrlTo(names[i], moduleEntries).Ok? <==> entries[i].0 in JsObject.Keys(moduleEntries));
    match MapUntilError(names, name => UrlTo(name, moduleEntries))
    case Err(e) => Err(e)
    case Ok(urls) =>
      Ok(seq(|entries|, i requires 0 <= i < |entries| => PageOf(entries[i].0, entries[i].1, urls[i], contextPath, fileExists)))
  }

  /** When the intended `pages` succeeds, page `i` is built from entry `i` and its own URL. */
  lemma IntendedPagesAt(entries: Entries, moduleEntries: Entries, contextPath: string, fileExists: string -> bool, i: nat)
    requires IntendedPages(entries, moduleEntries, contextPath, fileExists).Ok? && i < |entries|
    ensures IntendedPages(entries, moduleEntries, contextPath, fileExists).value[i] ==
      PageOf(entries[i].0, entries[i].1, UrlTo(entries[i].0, moduleEntries).value, contextPath, fileExists)
  {
    MapUntilErrorAt(JsObject.Keys(entries), name => UrlTo(name, moduleEntries), i);
  }

  /**
   * With the intended `pages`, every entry of the module's own entries gets
   * a page, and that page lies in the same output directory as the entry's
   * bundle as `filenameOf` names it.
   */
  lemma IntendedPagesBesideBundles(entries: Entries, contextPath: string, fileExists: string -> bool, i: nat)
    requires i < |entries|
    ensures IntendedPages(entries, entries, contextPath, fileExists).Ok?
    ensures var url := UrlTo(entries[i].0, entries).value;
      var dir := if url == "" then "" else url + "/";
      IntendedPages(entries, entries, contextPath, fileExists).value[i].filename == Some(dir + "index.html") &&
      FilenameOf(entries[i].0, entries) == Ok(dir + (entries[i].0 + WebpackUtils.BundleSuffix))
  {
    forall j | 0 <= j < |entries| ensures entries[j].0 in JsObject.Keys(entries) {
      assert JsObject.Keys(entries)[j] == entries[j].0;
    }
    IntendedPagesAt(entries, entries, contextPath, fileExists, i);
    var url := UrlTo(entries[i].0, entries).value;
    assert FilenameOf(entries[i].0, entries) == Ok(WebpackUtils.UnderUrl(url, entries[i].0 + WebpackUtils.BundleSuffix));
    if url == "" {
      assert "" + "index.html" == "index.html";
      assert "" + (entries[i].0 + WebpackUtils.BundleSuffix) == entries[i].0 + WebpackUtils.BundleSuffix;
    }
  }
}
