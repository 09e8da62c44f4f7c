/**
 * The exported variant (webpack-utils.js): `urlTo`, `filenameOf`, `pages`
 * and `entryDescriptor`, all taking the entries object and the context
 * directory as explicit parameters. Its `discoverEntries` is
 * `Discovery.DiscoverEntries` with `ValueStyle.AbsolutePath`.
 */
module WebpackUtils {
  import opened Wrappers
  import opened JsString
  import opened NodePath
  import opened Discovery
  import JsObject

  /** The output-name pattern; `[contenthash]` is filled in by the bundler. */
  const BundleSuffix: string := "-[contenthash].bundle.js"

  /** The plugin options `pages` builds per entry; `None` stands for `undefined`. */
  datatype Page = Page(template: string, filename: Option<string>, chunks: seq<string>)

  /** `{import, dependOn}`: one entry of the bundler's multi-entry configuration. */
  datatype EntryImport = EntryImport(importPath: string, dependOn: string)

  /** `result[0] === '/' ? result.slice(1) : result`. */
  function StripLeadingSlash(s: string): string {
    if |s| > 0 && s[0] == '/' then s[1..] else s
  }

  /** `.replaceAll(path.sep, '/').replace('.', '')` followed by dropping one leading '/'. */
  function WebSegment(dir: string): string {
    StripLeadingSlash(ReplaceFirst(SubstituteChar(dir, Sep, "/"), ".", ""))
  }

  /** A file name placed under a URL segment: bare at the site root, `url/leaf` otherwise. */
  function UnderUrl(url: string, leaf: string): string {
    if url == "" then leaf else url + "/" + leaf
  }

  /**
   * `urlTo(entryName, fromEntries, contextDir)`: the URL segment of the
   * directory holding the entry; the name itself when the lookup gives
   * nothing or the empty string (both falsy in JavaScript).
   */
  function UrlTo(entryName: string, fromEntries: Entries, contextDir: string): (r: string)
    ensures JsObject.Get(fromEntries, entryName) == None ==> r == entryName
    ensures JsObject.Get(fromEntries, entryName) == Some("") ==> r == entryName
  {
    var found := JsObject.Get(fromEntries, entryName);
    if found.Some? && found.value != "" then
      WebSegment(ReplaceFirst(Dirname(found.value), contextDir, ""))
    else
      entryName
  }

  /** `filenameOf(entryName, fromEntries, contextDir)`: where the entry's bundle is written. */
  function FilenameOf(entryName: string, fromEntries: Entries, contextDir: string): (r: string)
    ensures UrlTo(entryName, fromEntries, contextDir) == "" ==> r == entryName + BundleSuffix
    ensures UrlTo(entryName, fromEntries, contextDir) != "" ==>
      r == UrlTo(entryName, fromEntries, contextDir) + "/" + entryName + BundleSuffix
  {
    UnderUrl(UrlTo(entryName, fromEntries, contextDir), entryName + BundleSuffix)
  }

  /**
   * The template of a page: `<entryName>.html` resolved against the NAME of
   * the entry's directory (so relative to the working directory) when
   * `fs.existsSync` finds it, otherwise `index.html` in the context path.
   */
  function TemplateOf(fileExists: string -> bool, entryName: string, entryPath: string, contextPath: string): string {
    var candidate := Resolve(ParentDirName(entryPath), entryName + ".html");
    if fileExists(candidate) then candidate else Resolve(contextPath, "index.html")
  }

  /** The descriptor `pages` builds for one entry. */
  function PageOf(entryName: string, entryPath: string, entries: Entries, contextPath: string, fileExists: string -> bool): Page {
    Page(TemplateOf(fileExists, entryName, entryPath, contextPath),
         Some(UnderUrl(UrlTo(entryName, entries, contextPath), "index.html")),
         [entryName, "shared"])
  }

  /**
   * `pages(entries, contextPath)`: `Object.entries(entries).map(...)`, one
   * descriptor per entry in entry order. Chunks are the entry and 'shared';
   * the page is `index.html` under the entry's URL; the template is
   * `<dir>\<name>.html` when it exists and the context's `index.html` otherwise.
   */
  function Pages(entries: Entries, contextPath: string, fileExists: string -> bool): (pages: seq<Page>)
    ensures |pages| == |entries|
    ensures forall i :: 0 <= i < |entries| ==>
      var candidate := Resolve(ParentDirName(entries[i].1), entries[i].0 + ".html");
      pages[i].chunks == [entries[i].0, "shared"] &&
      pages[i].filename == Some(UnderUrl(UrlTo(entries[i].0, entries, contextPath), "index.html")) &&
      (fileExists(candidate) ==> pages[i].template == candidate) &&
      (!fileExists(candidate) ==> pages[i].template == Resolve(contextPath, "index.html"))
  {
    seq(|entries|, i requires 0 <= i < |entries| => PageOf(entries[i].0, entries[i].1, entries, contextPath, fileExists))
  }

  /** `entryDescriptor(entries)`: every entry becomes `{import: path, dependOn: 'shared'}`, same keys, same order. */
  method EntryDescriptor(entries: Entries) returns (newEntries: JsObject.Object<EntryImport>)
    requires JsObject.UniqueKeys(entries)
    ensures JsObject.Keys(newEntries) == JsObject.Keys(entries)
    ensures forall i :: 0 <= i < |entries| ==> newEntries[i].1 == EntryImport(entries[i].1, "shared")
  {
    newEntries := [];
    for i := 0 to |entries|
      invariant JsObject.Keys(newEntries) == JsObject.Keys(entries[..i])
      invariant forall j :: 0 <= j < i ==> newEntries[j].1 == EntryImport(entries[j].1, "shared")
    {
      var (entryName, entryPath) := entries[i];
      assert entryName !in JsObject.Keys(entries[..i]);
      assert entries[..i + 1] == entries[..i] + [entries[i]];
      newEntries := JsObject.Set(newEntries, entryName, EntryImport(entryPath, "shared"));
    }
    assert entries[..|entries|] == entries;
  }
}
