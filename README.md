# Page-entry discovery for a multi-page webpack configuration

The repository builds multi-page webpack configurations by convention. It has
three near-copies of one pipeline:

- `webpack-utils.js` is the exported variant.
- `MPA/webpack.common.js` and `dir.js` are older copies.

The pipeline has five steps:

1. `getTree` scans the pages directory into an object that maps names to
   `{absPath, type, children?}`.
2. `discoverEntries` walks that tree with the recursive `flatten` closure. It
   assigns into one `entries` object every file that follows the naming
   convention:
   - `index.js` directly in the root becomes the entry `index`.
   - A file whose basename without its first `.js` equals the name of its
     directory becomes an entry under that name.
3. `urlTo` and `filenameOf` derive the URL segment of an entry and the output
   name of its bundle.
4. `pages` builds one HtmlWebpackPlugin descriptor per entry:
   `{template, filename, chunks}`.
5. `entryDescriptor` rewrites the entries as `{import, dependOn: 'shared'}`.

The older copies differ from the exported variant in four ways:

- They store entry values with the root replaced by `.`, as in `.\about\about.js`.
- Their `urlTo` reads the module-level `entries`, and it has no fallback.
- Their `pages` differ: MPA calls `urlTo(entries)`, and dir.js never sets `filename`.
- MPA adds an output `filename` hook.

## Modules

- `Wrappers`: `Option` and `Result`.
- `JsString`:
  - `indexOf`, `includes`, and `replace` with a string pattern, which replaces the first occurrence only.
  - The `String.prototype.replaceAll` polyfill as a `while` loop, proved equal to a one-pass substitution `SubstituteChar`.
- `NodePath`: `path.dirname`, `path.basename`, `path.resolve` and `getParentDirName`. The separator is fixed to '\' because the repository targets Windows.
- `JsObject`: a JavaScript object as an association list in insertion order.
  - `o[k] = v` updates a present key in place and appends a new one.
  - `Object.keys` and `Object.entries` enumerate in that order.
- `FsTree`: `getTree` over a file system given as a value.
- `Discovery`:
  - The entries object is the class `EntriesObject`, which `flatten` mutates.
  - The recursive `flatten` is a method with a loop, proved equal to the specification function `Flattened`.
  - `discoverEntries` is parameterised by how values are stored (`AbsolutePath` or `RootRelative`).
- `DiscoveryProperties`: the walk is a fold over the tree's files in depth-first order. The module proves what that fold stores.
- `WebpackUtils`: `urlTo`, `filenameOf`, `pages` and `entryDescriptor` of the exported variant.
- `WebpackUtilsProperties`: the properties of those four operations.
- `LegacyUrls`: the module-level `urlTo` and `filenameOf` that MPA/webpack.common.js and dir.js share. Each fails with a `TypeError` when the name is not a key.
- `MpaWebpackCommon`: the output `filename` hook, and `pages` both as written and as intended.
- `DirScript`: the `pages` of dir.js.

### Behaviour of the code worth knowing

- **Template probe.** `pages` resolves `<entryName>.html` against the *name*
  of the entry's directory, not its path, so the probe is relative to the
  working directory (webpack-utils.js:155-160;
  `WebpackUtilsProperties.TemplateProbesDirName`).
- **Entry descriptors.** `entryDescriptor` only rewraps the entries it is
  given as `{import, dependOn: 'shared'}`; it adds no entry of its own
  (webpack-utils.js:243-254).
- **Dots in URLs.** `.replace('.', '')` removes the first `.` anywhere in the
  directory path below the context, not only a leading `.`
  (webpack-utils.js:209; see Findings).
- **Load order in MPA/webpack.common.js.** The configuration object calls
  `pages(entries)` at line 94, before the `replaceAll` polyfill is installed
  at line 150, so that call needs the engine's own `replaceAll`.

## Model

| member | source | states |
|---|---|---|
| JsString.IndexOf | webpack-utils.js:24 | the first index at which the pattern occurs, or none when it occurs nowhere |
| JsString.ReplaceFirst | webpack-utils.js:25 | `replace` with a string pattern: the result is unchanged when the pattern is absent; otherwise its length drops by the pattern's and grows by the replacement's |
| JsString.ReplaceFirstChar | webpack-utils.js:209 | `replace` with a one-character pattern acts exactly at the first place that character appears |
| JsString.ReplaceFirstAfter | webpack-utils.js:127 | `replace` acts at the first place the pattern's first character appears when the pattern stands there |
| JsString.ReplaceFirstAbsent | webpack-utils.js:127 | a pattern whose first character is absent leaves the string unchanged |
| JsString.IncludesChar | webpack-utils.js:24 | for a one-character pattern, `includes` is exactly membership |
| JsString.IndexOfChar | webpack-utils.js:25 | the first occurrence of a one-character pattern is the first index holding that character |
| JsString.SubstituteChar | webpack-utils.js:208 | the intended `replaceAll(sep, '/')`: the character is gone when the replacement lacks it, and a string without the character is unchanged |
| JsString.SubstituteCharAvoids | webpack-utils.js:208 | the substitution brings in no character that neither the input nor the replacement holds |
| JsString.SubstituteCharLength | webpack-utils.js:208 | a one-character replacement keeps the length |
| JsString.SubstituteCharIdentity | webpack-utils.js:208 | replacing a character by itself changes nothing |
| JsString.ReplaceFirstStep | webpack-utils.js:24-26 | one round of the polyfill loop keeps the eventual substitution and removes one occurrence, which is why the loop ends |
| JsString.ReplaceAll | webpack-utils.js:22-28 | the polyfill (identical at MPA/webpack.common.js:150-156 and dir.js:177-183) terminates for a one-character pattern absent from the replacement; it leaves no occurrence, and its result is the left-to-right substitution, with the other characters kept in order |
| JsString.PolyfillStallsWhenReplacementIsPattern | webpack-utils.js:22-28 | when the replacement equals the pattern and the pattern occurs, the loop guard holds and `replace` returns its input unchanged: the loop never ends |
| NodePath.LastSep | webpack-utils.js:101 | the last separator of a path (what `dirname` and `basename` split at), or none exactly when there is no separator |
| NodePath.BasenameOfResolve | webpack-utils.js:127 | `basename(resolve(dir, name)) == name` for a single name |
| NodePath.DirnameOfResolve | webpack-utils.js:118 | `dirname(resolve(dir, name)) == dir` for a single name and a non-empty directory |
| NodePath.ParentDirName | webpack-utils.js:100-102 | `getParentDirName` yields a single name, never a path: the result holds no separator, and it is `.` for a bare file name with no directory part |
| NodePath.ParentDirNameOfResolve | webpack-utils.js:100-102 | `getParentDirName` (also dir.js:72-74) of `root\d\f` is `d`: the name of the directory, not its path |
| NodePath.BelowNested | webpack-utils.js:77 | a path below a subdirectory is below its parent |
| JsObject.Keys | webpack-utils.js:116 | `Object.keys`/`Object.entries` order: the keys are the pairs' names in insertion order |
| JsObject.Get | webpack-utils.js:204 | `o[k]` is defined exactly when `k` is a key |
| JsObject.Set | webpack-utils.js:121 | `o[k] = v` keeps the key order when `k` is present, and appends `(k, v)` when it is not |
| JsObject.SetGet | webpack-utils.js:129 | after `o[k] = v`, `k` holds `v` and every other key holds what it held before |
| JsObject.SetKeepsKeysUnique | webpack-utils.js:129 | assignment never creates a second copy of a key |
| JsObject.GetAt | webpack-utils.js:154 | in an object, looking up the key at position `i` gives the value at position `i` |
| FsTree.ScanListing | webpack-utils.js:76-90 | the `reduce` over a listing succeeds exactly when every entry at every depth can be stat-ed and every directory among them listed (the recursive `getTree` at :83 reaches `readdirSync` at :73); the tree then mirrors the listing; a failure names a path below the scanned directory |
| FsTree.GetTree | webpack-utils.js:71-94 | the scan (identical at MPA/webpack.common.js:199-222 and dir.js:47-70): `readdirSync` on anything but a listable directory fails with that path; an empty directory gives `{}`; otherwise the result mirrors the listing, and a failure below names a path below the root |
| FsTree.MirrorsAt | webpack-utils.js:77-88 | position by position: the same name, `absPath` the directory resolved with the name, and children exactly for directories |
| FsTree.GetTreeShape | webpack-utils.js:71-94 | the keys are exactly the listing's names in listing order; each `absPath` is the directory joined with its name; an item has children exactly when it is a directory |
| Discovery.EntriesObject.Assign | webpack-utils.js:121 | `entries[key] = value` on the shared object: its pairs become the association-list assignment of the old pairs |
| Discovery.Flatten | webpack-utils.js:115-136 | the recursive `flatten` loop (also MPA/webpack.common.js:243-262 and dir.js:87-106, with root-relative values) leaves the entries object equal to `Flattened` of the old object and the subtree |
| Discovery.DiscoverEntries | webpack-utils.js:109-139 | returns the scan's failure, or the entries `flatten` collects into a fresh `{}`; the `RootRelative` style gives MPA/webpack.common.js:237-265 and dir.js:81-109 |
| DiscoveryProperties.Files | webpack-utils.js:116-134 | the files the walk meets, depth first and in listing order, are all file items |
| DiscoveryProperties.FoldAppend | webpack-utils.js:116 | visiting two runs of files one after the other is visiting their concatenation |
| DiscoveryProperties.FlattenedIsFoldOverFiles | webpack-utils.js:115-136 | the recursive walk, descending into every directory, equals visiting the tree's files in depth-first order |
| DiscoveryProperties.FoldUntouched | webpack-utils.js:117-134 | a name that no visited file is stored under keeps its value |
| DiscoveryProperties.FoldLastWins | webpack-utils.js:121-133 | a name holds the value of the last visited file stored under it |
| DiscoveryProperties.FoldValuesFromFiles | webpack-utils.js:121-129 | every value that changes comes from a selected file stored under that name |
| DiscoveryProperties.FoldKeepsKeyOrder | webpack-utils.js:121-129 | keys already present stay, in their order |
| DiscoveryProperties.FoldKeepsKeysUnique | webpack-utils.js:121-129 | the walk never stores a name twice |
| DiscoveryProperties.DiscoveredEntries | webpack-utils.js:109-139 | in every variant (also MPA/webpack.common.js:237-265 and dir.js:81-109), a name is a key exactly when some selected file is stored under it; its value comes from a file item, never a directory; no key repeats |
| DiscoveryProperties.DiscoveredLastWins | webpack-utils.js:129-134 | when several files give the same entry name, the last one visited wins (the same in dir.js:100-103) |
| DiscoveryProperties.RootIndexRule | webpack-utils.js:117-123 | rule 1 applies to a scanned file exactly when its directory is the root and its name is `index.js`, and it stores the entry `index` |
| DiscoveryProperties.NamedAfterDirRule | webpack-utils.js:126-131 | rule 2 applies to file `f` in directory `d` exactly when `f` without its first `.js` is `d` |
| DiscoveryProperties.FirstJsOnly | webpack-utils.js:127 | a file `d` with no extension matches its directory `d`, while `d.json` becomes `don` and does not |
| DiscoveryProperties.FilesBelow | webpack-utils.js:77 | every file the scan finds lies below the scanned directory |
| DiscoveryProperties.EntryValueBelow | MPA/webpack.common.js:249 | an absolute value below the root stays below it; with the root replaced by `.`, the value is `.\...` |
| DiscoveryProperties.DiscoveredValuesBelowRoot | webpack-utils.js:121-129 | every stored value is an absolute path below the root; in MPA/webpack.common.js:249-256 and dir.js:93-100 every stored value has the form `.\...` |
| WebpackUtils.UrlTo | webpack-utils.js:196-219 | an entry name that is not a key, or whose path is the falsy `''`, is its own URL (the lemmas `WebpackUtilsProperties.UrlToBelowContext` and `UrlToNested` state the other branch) |
| WebpackUtils.FilenameOf | webpack-utils.js:226-241 | the bundle is `<name>-[contenthash].bundle.js` when the entry's URL is `''`, and `<url>/<name>-[contenthash].bundle.js` otherwise |
| WebpackUtils.Pages | webpack-utils.js:151-179 | one descriptor per entry, in entry order, with chunks `[name, 'shared']`, filename `index.html` under the entry's URL, and the template `<dir>\<name>.html` when it exists, else the context's `index.html` |
| WebpackUtils.EntryDescriptor | webpack-utils.js:243-254 | the loop keeps exactly the input keys in their order; each becomes `{import: path, dependOn: 'shared'}` |
| WebpackUtilsProperties.UrlToFallback | webpack-utils.js:204-218 | a name whose lookup is missing or `''` (falsy) is its own URL segment, so its bundle is `name/name-[contenthash].bundle.js` |
| WebpackUtilsProperties.UrlToRootEntry | webpack-utils.js:204-238 | an entry file directly in the context directory has URL `''`, so `filenameOf` takes its first branch: `name-[contenthash].bundle.js` |
| WebpackUtilsProperties.UrlToBelowContext | webpack-utils.js:205-209 | for an entry in `contextDir\rel`, removing the context leaves `\rel` to be converted |
| WebpackUtilsProperties.WebSegmentWithoutDot | webpack-utils.js:208-213 | the web form of `\rel` with no `.` is `rel` with '/' separators |
| WebpackUtilsProperties.SubstituteAroundDot | webpack-utils.js:208 | separator conversion of `\before.after` converts each part on its own |
| WebpackUtilsProperties.DropFirstDot | webpack-utils.js:209 | `replace('.', '')` removes exactly the first '.' |
| WebpackUtilsProperties.WebSegmentDropsFirstDot | webpack-utils.js:208-213 | the web form of `\before.after` is `beforeafter` with '/' separators |
| WebpackUtilsProperties.UrlToNested | webpack-utils.js:204-215 | an entry in `contextDir\a\b` with no '.' in `a\b` has URL `a/b` |
| WebpackUtilsProperties.UrlToDropsFirstDot | webpack-utils.js:209 | an entry in `contextDir\before.after` has URL `beforeafter`, with separators converted |
| WebpackUtilsProperties.IntendedUrlTo | webpack-utils.js:204-218 | (corrected) `urlTo` without the stray `.replace('.', '')` |
| WebpackUtilsProperties.IntendedUrlToNested | webpack-utils.js:204-215 | (corrected) an entry in `contextDir\rel` is published under `rel` with '/' separators, dots kept |
| WebpackUtilsProperties.SeparatorsOfRelative | webpack-utils.js:208-213 | `\rel` converted and its leading '/' dropped is `rel` converted |
| WebpackUtilsProperties.DottedDirectoryLosesDot | webpack-utils.js:209 | for every dotted directory below the context, the URL as written differs from the intended one |
| WebpackUtilsProperties.UnderUrlPrefixes | webpack-utils.js:234-238 | placing a file under a URL is prefixing it with `''` or `url/` |
| WebpackUtilsProperties.BundleBesidePage | webpack-utils.js:165-238 | a page `<dir>index.html` and its bundle `<dir><name>-[contenthash].bundle.js` (from `filenameOf`) share one output directory `<dir>` |
| WebpackUtilsProperties.TemplateProbesDirName | webpack-utils.js:155-163 | the template probe (also MPA/webpack.common.js:281-289 and dir.js:125-133) is the parent directory's name joined with `<name>.html`, whatever lies above that directory |
| WebpackUtilsProperties.RootPageIsIndexHtml | webpack-utils.js:167-168 | the page of an entry directly in the context directory is `index.html` |
| LegacyUrls.UrlTo | MPA/webpack.common.js:321-333 | reads the module's `entries` (the same at dir.js:147-159); a `TypeError` from `path.dirname(undefined)` exactly when the name is not a key |
| LegacyUrls.FilenameOf | MPA/webpack.common.js:340-354 | fails exactly where `urlTo` fails (the same at dir.js:162-175) |
| LegacyUrls.RootRelativeValue | MPA/webpack.common.js:256 | a file `root\rel\f` is stored as `.\rel\f` |
| LegacyUrls.UrlToRootEntry | dir.js:151-158 | `.\index.js` gives URL `''` and the bundle `index-[contenthash].bundle.js` |
| LegacyUrls.SegmentOfRelativeDir | MPA/webpack.common.js:326-330 | the web form of `.\rel` is `rel` with '/' separators: the '.' removed is the leading one |
| LegacyUrls.UrlToNested | MPA/webpack.common.js:325-332 | `.\about\about.js` gives `about`; in general `.\rel\f` gives `rel` with '/' separators |
| LegacyUrls.SegmentNonEmpty | dir.js:168 | a non-empty directory gives a non-empty URL |
| LegacyUrls.FilenameOfNested | dir.js:168-172 | a bundle below `.\rel` is `rel/name-[contenthash].bundle.js` |
| MpaWebpackCommon.OutputFilename | MPA/webpack.common.js:25-31 | chunk `index` is `index.bundle.js`; every other chunk goes to `filenameOf(name)` |
| MpaWebpackCommon.IndexChunkWithoutHash | MPA/webpack.common.js:26-27 | the root `index` is written without the content hash that `filenameOf` would add |
| MpaWebpackCommon.OutputFilenameNested | MPA/webpack.common.js:28-29 | any other chunk stored as `.\rel\f` is `rel/name-[contenthash].bundle.js` |
| MpaWebpackCommon.Pages | MPA/webpack.common.js:277-304 | as written: for non-empty entries, `path.dirname(undefined)` throws exactly when "[object Object]" is not a key, and otherwise `replaceAll` throws exactly when the engine has no native one (the call at line 94 precedes the polyfill at line 150); on success one page per entry, chunks `[name]`, the exported templates, and every filename `index.html` under the URL of "[object Object]" |
| MpaWebpackCommon.PagesThrowForIndexAlone | MPA/webpack.common.js:291 | with only the root `index.js`, `pages` throws on any engine |
| MpaWebpackCommon.MapUntilError | MPA/webpack.common.js:280 | `Array.map` with a callback that may throw: it succeeds exactly when the callback succeeds on every element, and then keeps one result per element |
| MpaWebpackCommon.MapUntilErrorAt | MPA/webpack.common.js:280 | result `i` of a successful map is the callback's result on element `i` |
| MpaWebpackCommon.IntendedPages | MPA/webpack.common.js:280-303 | (corrected) with `urlTo(entryName)` and a `replaceAll` available at load time, `pages` succeeds exactly when every entry name is a key, with one page per entry |
| MpaWebpackCommon.IntendedPagesAt | MPA/webpack.common.js:283-301 | (corrected) page `i` is built from entry `i` and its own URL |
| MpaWebpackCommon.IntendedPagesBesideBundles | MPA/webpack.common.js:291-296 | (corrected) every page of the module's own entries exists and shares its output directory with its bundle |
| DirScript.Pages | dir.js:121-141 | one descriptor per entry, in entry order, with chunks `[name, 'react', 'react-dom']`, no filename, and the template `<dir>\<name>.html` when it exists, else the context's `index.html` |
| DirScript.PagesAgainstExported | dir.js:126-137 | the same templates as the exported variant; `filename` stays undefined; the chunks are `[name, 'react', 'react-dom']` |

## Left out

- File system I/O: `fs.readdirSync` and `fs.lstatSync` are replaced by a file-system value: nothing, a non-directory, a directory that cannot be listed, or a directory with its listing. `fs.existsSync` is a predicate parameter. Symbolic links are things `lstat` does not report as directories. The kind of I/O error (ENOENT, EACCES, ...) is not modelled, only which call fails on which path.
- `path.normalize` is the identity, and `path.resolve(dir, name)` is `dir + '\' + name`. Resolution against the working directory, `..`, drive letters, mixed or trailing separators, and `dirname` of a path ending in a separator are not modelled.
- The separator is fixed to '\'. With '/' the polyfill loops forever (see Findings), so the POSIX behaviour is stated only by the stall lemma.
- JsString.ReplaceAll: modelled only for a one-character pattern that the replacement does not contain. This is how all three files call it (`replaceAll(path.sep, '/')`). Other patterns can make the loop run forever.
- JsObject: integer-like keys, which JavaScript enumerates first, and prototype keys are not modelled. Entry names are plain strings.
- `$` patterns in `String.prototype.replace` are not modelled. No pattern or replacement in the core contains `$`.
- The native `String.prototype.replaceAll` is modelled only by its presence (`MpaWebpackCommon.Pages`'s `nativeReplaceAll`), for the one call that runs before the polyfill is installed (MPA/webpack.common.js:94, polyfill at line 150). For a one-character pattern it computes `SubstituteChar`, as the polyfill does. Every other call runs after the polyfill is installed.
- A listing is taken as given. Duplicate names cannot occur in a real directory, and the model does not rule them out.
- LegacyUrls.UrlTo: the `fromEntries` parameter, and its default `entries || throwError(...)`, are dropped. The body never reads the parameter, and the default never throws, because `entries` is always an object.
- `throwError` (MPA/webpack.common.js:312-314, dir.js:143-145) is only reachable from that default, so it is not modelled.
- The default `contextPath` of `pages` (`path.resolve(__dirname, 'src/pages')`) is a parameter.
- Webpack configuration data are not modelled: loaders, plugins, `process.env`, `webpack-merge`, and the rest of MPA/webpack.common.js outside the `filename` hook. Neither is MPA/webpack.dev.js.
- The top-level script at the end of dir.js (lines 185-193) is not modelled. It runs discovery on a hard-coded path and logs the result.
- Bundler behaviour after configuration (filling in `[contenthash]`, emitting files) is outside the code.

## Findings

| source | as written | input that shows it | evidently intended | confidence | as-written member | corrected member |
|---|---|---|---|---|---|---|
| webpack-utils.js:22-28 (also MPA/webpack.common.js:150-156, dir.js:177-183) | `while (result.includes(subStr)) result = result.replace(subStr, replace)`; `urlTo` calls it as `replaceAll(path.sep, '/')` | on POSIX, `path.sep` is '/', so any entry directory such as `/home/u/src/pages/about` leaves the guard true and `replace` returns its input | every separator mapped to '/', which is the identity when the separator is already '/' | not executed | JsString.PolyfillStallsWhenReplacementIsPattern | JsString.SubstituteCharIdentity |
| MPA/webpack.common.js:291 | `urlTo(entries)` passes the entries object as the name, so `urlTo` reads `entries["[object Object]"]` and calls `path.dirname(undefined)` | entries `{index: '.\index.js'}`: `pages` throws a `TypeError` | `urlTo(entryName)`, as webpack-utils.js:165 does, with the `replaceAll` polyfill installed before line 17 (or an engine with a native `replaceAll`), since `pages` runs at line 94 | not executed | MpaWebpackCommon.PagesThrowForIndexAlone | MpaWebpackCommon.IntendedPagesBesideBundles |
| webpack-utils.js:209 | `.replace('.', '')`, written for values like `.\about`, now meets absolute values with the context removed, and deletes the first '.' anywhere | an entry `<context>\blog.old\blog.old.js` gets the URL `blogold` instead of `blog.old` | drop the `.replace('.', '')` for absolute values | not executed | WebpackUtilsProperties.DottedDirectoryLosesDot | WebpackUtilsProperties.IntendedUrlToNested |
