/**
 * What the exported variant promises about URLs, output file names, page
 * descriptors and templates, for entries laid out below the context
 * directory as discovery stores them (absolute paths).
 */
module WebpackUtilsProperties {
  import opened Wrappers
  import opened JsString
  import opened NodePath
  import opened Discovery
  import opened WebpackUtils
  import JsObject

  /** A name the entries object does not hold (or holds as '') is its own URL segment. */
  lemma UrlToFallback(entryName: string, fromEntries: Entries, contextDir: string)
    requires entryName !in JsObject.Keys(fromEntries) || JsObject.Get(fromEntries, entryName) == Some("")
    ensures UrlTo(entryName, fromEntries, contextDir) == entryName
    ensures FilenameOf(entryName, fromEntries, contextDir) ==
      if entryName == "" then BundleSuffix else entryName + "/" + entryName + BundleSuffix
  {
  }

  /** An entry file directly in the context directory has the empty URL segment. */
  lemma UrlToRootEntry(entryName: string, fromEntries: Entries, contextDir: string, fileName: string)
    requires contextDir != [] && Sep !in fileName
    requires JsObject.Get(fromEntries, entryName) == Some(Resolve(contextDir, fileName))
    ensures UrlTo(entryName, fromEntries, contextDir) == ""
    ensures FilenameOf(entryName, fromEntries, contextDir) == entryName + BundleSuffix
  {
    DirnameOfResolve(contextDir, fileName);
    ReplacePrefix(contextDir, "", "");
    assert contextDir + "" == contextDir;
  }

  /** Below the context, the URL segment of an entry in `contextDir\rel` is the web form of `\rel`. */
  lemma UrlToBelowContext(entryName: string, fromEntries: Entries, contextDir: string, rel: string, fileName: string)
    requires contextDir != [] && Sep !in fileName
    requires JsObject.Get(fromEntries, entryName) == Some(Resolve(Resolve(contextDir, rel), fileName))
    ensures UrlTo(entryName, fromEntries, contextDir) == WebSegment([Sep] + rel)
  {
    var tail := [Sep] + rel;
    var entryPath := Resolve(Resolve(contextDir, rel), fileName);
    assert Resolve(contextDir, rel) == contextDir + tail;
    DirnameOfResolve(contextDir + tail, fileName);
    assert Dirname(entryPath) == contextDir + tail;
    ReplacePrefix(contextDir, tail, "");
    assert "" + tail == tail;
    assert ReplaceFirst(Dirname(entryPath), contextDir, "") == tail;
    assert entryPath != "";
  }

  /** The web form of `\rel` is `rel` with '/' separators when `rel` has no '.'. */
  lemma WebSegmentWithoutDot(rel: string)
    requires '.' !in rel
    ensures WebSegment([Sep] + rel) == SubstituteChar(rel, Sep, "/")
  {
    var s := SubstituteChar(rel, Sep, "/");
    SubstituteCharAppend([Sep], rel, Sep, "/");
    assert SubstituteChar([Sep], Sep, "/") == "/";
    SubstituteCharAvoids(rel, Sep, "/", '.');
    assert '.' !in "/" + s;
    IncludesChar("/" + s, '.');
    assert ("/" + s)[1..] == s;
  }

  /** Converting the separators of `\before.after` converts each part on its own. */
  lemma SubstituteAroundDot(before: string, after: string)
    ensures SubstituteChar([Sep] + before + "." + after, Sep, "/") ==
      "/" + SubstituteChar(before, Sep, "/") + "." + SubstituteChar(after, Sep, "/")
  {
    SubstituteCharAppend3([Sep] + before, ".", after, Sep, "/");
    SubstituteCharAppend([Sep], before, Sep, "/");
    assert SubstituteChar([Sep], Sep, "/") == "/";
    assert SubstituteChar(".", Sep, "/") == ".";
  }

  /** `replace('.', '')` on `/b.post`, where `b` has no '.', removes exactly that '.'. */
  lemma DropFirstDot(b: string, post: string)
    requires '.' !in b
    ensures ReplaceFirst("/" + b + "." + post, ".", "") == "/" + (b + post)
  {
    assert '.' !in "/" + b;
    ReplaceFirstChar("/" + b, '.', post, "");
    assert "/" + b + "." + post == ("/" + b) + ['.'] + post;
    assert ("/" + b) + "" + post == "/" + (b + post);
  }

  /** The web form of `\before.after` loses the first '.': it is `beforeafter` with '/' separators. */
  lemma WebSegmentDropsFirstDot(before: string, after: string)
    requires '.' !in before
    ensures WebSegment([Sep] + (before + "." + after)) == SubstituteChar(before + after, Sep, "/")
  {
    var b := SubstituteChar(before, Sep, "/");
    var post := SubstituteChar(after, Sep, "/");
    assert [Sep] + (before + "." + after) == [Sep] + before + "." + after;
    SubstituteAroundDot(before, after);
    SubstituteCharAvoids(before, Sep, "/", '.');
    DropFirstDot(b, post);
    SubstituteCharAppend(before, after, Sep, "/");
    assert ("/" + (b + post))[1..] == b + post;
  }

  /**
   * An entry file in `contextDir\rel` has the URL segment `rel` with '/'
   * separators, provided `rel` has no '.'.
   */
  lemma UrlToNested(entryName: string, fromEntries: Entries, contextDir: string, rel: string, fileName: string)
    requires contextDir != [] && Sep !in fileName && '.' !in rel
    requires JsObject.Get(fromEntries, entryName) == Some(Resolve(Resolve(contextDir, rel), fileName))
    ensures UrlTo(entryName, fromEntries, contextDir) == SubstituteChar(rel, Sep, "/")
  {
    UrlToBelowContext(entryName, fromEntries, contextDir, rel, fileName);
    WebSegmentWithoutDot(rel);
  }

  /**
   * The first '.' of the directory's path below the context is dropped, as
   * the `.replace('.', '')` meant for a leading './' now meets absolute
   * paths: a page in `blog.old` is published under `blogold`.
   */
  lemma UrlToDropsFirstDot(entryName: string, fromEntries: Entries, contextDir: string, before: string, after: string, fileName: string)
    requires contextDir != [] && Sep !in fileName && '.' !in before
    requires JsObject.Get(fromEntries, entryName) == Some(Resolve(Resolve(contextDir, before + "." + after), fileName))
    ensures UrlTo(entryName, fromEntries, contextDir) == SubstituteChar(before + after, Sep, "/")
  {
    UrlToBelowContext(entryName, fromEntries, contextDir, before + "." + after, fileName);
    WebSegmentDropsFirstDot(before, after);
  }

  /** Placing a file under a URL segment is prefixing it with the segment's directory form. */
  lemma UnderUrlPrefixes(url: string, leaf: string)
    ensures UnderUrl(url, leaf) == (if url == "" then "" else url + "/") + leaf
  {
    if url == "" {
      assert "" + leaf == leaf;
    }
  }

  /**
   * `urlTo` as evidently intended for absolute entry paths: the path below
   * the context with '/' separators and no leading '/', without the
   * `.replace('.', '')` that only made sense for `./`-relative values.
   */
  function IntendedUrlTo(entryName: string, fromEntries: Entries, contextDir: string): string {
    var found := JsObject.Get(fromEntries, entryName);
    if found.Some? && found.value != "" then
      StripLeadingSlash(SubstituteChar(ReplaceFirst(Dirname(found.value), contextDir, ""), Sep, "/"))
    else
      entryName
  }

  /** With the intended `urlTo`, an entry in `contextDir\rel` is published under `rel`, dots and all. */
  lemma IntendedUrlToNested(entryName: string, fromEntries: Entries, contextDir: string, rel: string, fileName: string)
    requires contextDir != [] && Sep !in fileName
    requires JsObject.Get(fromEntries, entryName) == Some(Resolve(Resolve(contextDir, rel), fileName))
    ensures IntendedUrlTo(entryName, fromEntries, contextDir) == SubstituteChar(rel, Sep, "/")
  {
    var tail := [Sep] + rel;
    var entryPath := Resolve(Resolve(contextDir, rel), fileName);
    assert Resolve(contextDir, rel) == contextDir + tail;
    DirnameOfResolve(contextDir + tail, fileName);
    ReplacePrefix(contextDir, tail, "");
    assert "" + tail == tail;
    assert ReplaceFirst(Dirname(entryPath), contextDir, "") == tail;
    assert entryPath != "";
    assert IntendedUrlTo(entryName, fromEntries, contextDir) == StripLeadingSlash(SubstituteChar(tail, Sep, "/"));
    SeparatorsOfRelative(rel);
  }

  /** `\rel` with '/' separators and its leading '/' dropped is `rel` with '/' separators. */
  lemma SeparatorsOfRelative(rel: string)
    ensures StripLeadingSlash(SubstituteChar([Sep] + rel, Sep, "/")) == SubstituteChar(rel, Sep, "/")
  {
    SubstituteCharAppend([Sep], rel, Sep, "/");
    assert SubstituteChar([Sep], Sep, "/") == "/";
    assert ("/" + SubstituteChar(rel, Sep, "/"))[1..] == SubstituteChar(rel, Sep, "/");
  }

  /**
   * Wherever the directory below the context holds a '.', the published URL
   * differs from the intended one: for `blog.old` it is `blogold`.
   */
  lemma DottedDirectoryLosesDot(entryName: string, fromEntries: Entries, contextDir: string, before: string, after: string, fileName: string)
    requires contextDir != [] && Sep !in fileName && '.' !in before
    requires JsObject.Get(fromEntries, entryName) == Some(Resolve(Resolve(contextDir, before + "." + after), fileName))
    ensures UrlTo(entryName, fromEntries, contextDir) == SubstituteChar(before + after, Sep, "/")
    ensures IntendedUrlTo(entryName, fromEntries, contextDir) == SubstituteChar(before + "." + after, Sep, "/")
    ensures UrlTo(entryName, fromEntries, contextDir) != IntendedUrlTo(entryName, fromEntries, contextDir)
  {
    UrlToDropsFirstDot(entryName, fromEntries, contextDir, before, after, fileName);
    IntendedUrlToNested(entryName, fromEntries, contextDir, before + "." + after, fileName);
    SubstituteCharLength(before + after, Sep, "/");
    SubstituteCharLength(before + "." + after, Sep, "/");
  }

  /**
   * A page and its bundle land in the same output directory: the page's
   * `filename` is `<dir>index.html` and the entry's bundle is
   * `<dir><entryName>-[contenthash].bundle.js` for one and the same `<dir>`.
   */
  lemma BundleBesidePage(entries: Entries, contextPath: string, fileExists: string -> bool, i: nat)
    requires i < |entries|
    ensures var url := UrlTo(entries[i].0, entries, contextPath);
      var dir := if url == "" then "" else url + "/";
      Pages(entries, contextPath, fileExists)[i].filename == Some(dir + "index.html") &&
      FilenameOf(entries[i].0, entries, contextPath) == dir + (entries[i].0 + BundleSuffix)
  {
    var url := UrlTo(entries[i].0, entries, contextPath);
    var page := Pages(entries, contextPath, fileExists)[i];
    assert page.filename == Some(UnderUrl(url, "index.html"));
    UnderUrlPrefixes(url, "index.html");
    UnderUrlPrefixes(url, entries[i].0 + BundleSuffix);
  }

  /**
   * The template probe looks only at the NAME of the entry's directory: an
   * entry `<anywhere>\<dir>\<file>` probes `<dir>\<entryName>.html`, whatever
   * `<anywhere>` is.
   */
  lemma TemplateProbesDirName(fileExists: string -> bool, entryName: string, anywhere: string, dir: string, file: string, contextPath: string)
    requires Sep !in dir && Sep !in file
    ensures var probe := Resolve(dir, entryName + ".html");
      TemplateOf(fileExists, entryName, Resolve(Resolve(anywhere, dir), file), contextPath) ==
        if fileExists(probe) then probe else Resolve(contextPath, "index.html")
  {
    ParentDirNameOfResolve(anywhere, dir, file);
  }

  /** The page of an entry directly in the context directory is written as `index.html`. */
  lemma RootPageIsIndexHtml(entries: Entries, contextPath: string, fileExists: string -> bool, i: nat, fileName: string)
    requires i < |entries| && JsObject.UniqueKeys(entries)
    requires contextPath != [] && Sep !in fileName && entries[i].1 == Resolve(contextPath, fileName)
    ensures Pages(entries, contextPath, fileExists)[i].filename == Some("index.html")
  {
    JsObject.GetAt(entries, i);
    UrlToRootEntry(entries[i].0, entries, contextPath, fileName);
  }
}
