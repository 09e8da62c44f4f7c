/**
 * dir.js: the earliest copy of the pipeline. Discovery is
 * `Discovery.DiscoverEntries` with `ValueStyle.RootRelative`; `urlTo` and
 * `filenameOf` are those of `LegacyUrls`. Its `pages` never computes a URL:
 * `filename` is declared and never assigned, and the chunks add the React
 * libraries to the entry.
 */
module DirScript {
  import opened Wrappers
  import opened Discovery
  import NodePath
  import WebpackUtils

  /** The descriptor `pages` builds for one entry; `filename` stays `undefined`. */
  function PageOf(entryName: string, entryPath: string, contextPath: string, fileExists: string -> bool): WebpackUtils.Page {
    WebpackUtils.Page(WebpackUtils.TemplateOf(fileExists, entryName, entryPath, contextPath), None, [entryName, "react", "react-dom"])
  }

  /**
   * `pages(entries, contextPath)`: `Object.entries(entries).map(...)`, one
   * descriptor per entry in entry order, with the React libraries as extra
   * chunks, no `filename`, and the template chosen as in the exported variant.
   */
  function Pages(entries: Entries, contextPath: string, fileExists: string -> bool): (pages: seq<WebpackUtils.Page>)
    ensures |pages| == |entries|
    ensures forall i :: 0 <= i < |entries| ==>
      var candidate := NodePath.Resolve(NodePath.ParentDirName(entries[i].1), entries[i].0 + ".html");
      pages[i].chunks == [entries[i].0, "react", "react-dom"] &&
      pages[i].filename.None? &&
      (fileExists(candidate) ==> pages[i].template == candidate) &&
      (!fileExists(candidate) ==> pages[i].template == NodePath.Resolve(contextPath, "index.html"))
  {
    seq(|entries|, i requires 0 <= i < |entries| => PageOf(entries[i].0, entries[i].1, contextPath, fileExists))
  }

  /**
   * Against the exported variant: the same templates in the same order, no
   * `filename` at all where that variant always sets one, and the React
   * libraries where it has the shared chunk.
   */
  lemma PagesAgainstExported(entries: Entries, contextPath: string, fileExists: string -> bool, i: nat)
    requires i < |entries|
    ensures var page := Pages(entries, contextPath, fileExists)[i];
      var exported := WebpackUtils.Pages(entries, contextPath, fileExists)[i];
      page.template == exported.template &&
      page.filename.None? && exported.filename.Some? &&
      page.chunks == [entries[i].0, "react", "react-dom"] &&
      exported.chunks == [entries[i].0, "shared"]
  {
  }
}
