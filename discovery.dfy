/**
 * `discoverEntries`: scan the root, then walk the tree with the recursive
 * `flatten` closure, which assigns into one shared `entries` object every
 * file that follows the naming convention:
 *   rule 1: `index.js` directly in the root is entry `index`;
 *   rule 2: a file whose basename, after removing the first `.js`, equals the
 *           name of its directory is an entry under that name.
 * Every directory is walked into (the guard `info.children !== {}` compares
 * two distinct objects and is always true), and a later match with the same
 * entry name overwrites the earlier value.
 */
module Discovery {
  import opened Wrappers
  import opened JsString
  import opened NodePath
  import opened FsTree
  import JsObject

  /** The discovered entries object: entry name to module path. */
  type Entries = JsObject.Object<string>

  /**
   * What is stored for a selected file: its absolute path (webpack-utils.js),
   * or that path with the first occurrence of the root replaced by `.`
   * (MPA/webpack.common.js and dir.js).
   */
  datatype ValueStyle = AbsolutePath | RootRelative

  function EntryValue(style: ValueStyle, root: string, absPath: string): string {
    match style
    case AbsolutePath => absPath
    case RootRelative => ReplaceFirst(absPath, root, ".")
  }

  /** `name.replace('.js', '')`: the entry name a selected file is stored under. */
  function EntryName(name: string): string {
    ReplaceFirst(name, ".js", "")
  }

  /** Rule 1: a file named `index.js` whose directory is the root itself. */
  predicate IsRootIndex(root: string, name: string, info: Item) {
    info.FileItem? && root == Dirname(info.absPath) && name == "index.js"
  }

  /** Rule 2: a file whose basename without its first `.js` is the name of its directory. */
  predicate IsNamedAfterDir(info: Item) {
    info.FileItem? && ReplaceFirst(Basename(info.absPath), ".js", "") == ParentDirName(info.absPath)
  }

  /** A tree entry that one of the two rules selects. */
  predicate Selected(root: string, e: (string, Item)) {
    IsRootIndex(root, e.0, e.1) || IsNamedAfterDir(e.1)
  }

  /** `flatten(obj)` as a function from the entries object before the call to the one after. */
  function Flattened(entries: Entries, obj: Tree, root: string, style: ValueStyle): Entries
    decreases obj
  {
    if obj == [] then entries
    else
      var e := obj[0];
      assert e in obj;
      var (name, info) := e;
      assert info < e;
      var next :=
        if IsRootIndex(root, name, info) then
          JsObject.Set(entries, EntryName(name), EntryValue(style, root, info.absPath))
        else if IsNamedAfterDir(info) then
          JsObject.Set(entries, EntryName(name), EntryValue(style, root, info.absPath))
        else if info.DirItem? then
          Flattened(entries, info.children, root, style)
        else
          entries;
      Flattened(next, obj[1..], root, style)
  }

  /** What `discoverEntries` returns: the scan's failure, or the entries `flatten` collects from `{}`. */
  function Discovered(pathToDir: string, fs: FsObject, style: ValueStyle): Result<Entries, FsError> {
    match GetTree(pathToDir, fs)
    case Err(err) => Err(err)
    case Ok(dirTree) => Ok(Flattened([], dirTree, pathToDir, style))
  }

  /** The `entries` object that `discoverEntries` creates and `flatten` assigns into. */
  class EntriesObject {
    var pairs: Entries

    constructor ()
      ensures pairs == []
    {
      pairs := [];
    }

    /** `entries[key] = value`. */
    method Assign(key: string, value: string)
      modifies this
      ensures pairs == JsObject.Set(old(pairs), key, value)
    {
      pairs := JsObject.Set(pairs, key, value);
    }
  }

  /** The recursive `flatten` closure: one pass over `obj`, assigning into `entries`. */
  method Flatten(obj: Tree, root: string, style: ValueStyle, entries: EntriesObject)
    modifies entries
    ensures entries.pairs == Flattened(old(entries.pairs), obj, root, style)
    decreases obj
  {
    for i := 0 to |obj|
      invariant Flattened(entries.pairs, obj[i..], root, style) == Flattened(old(entries.pairs), obj, root, style)
    {
      var (name, info) := obj[i];
      assert obj[i] in obj;
      assert info < obj[i];
      assert obj[i..][0] == obj[i] && obj[i..][1..] == obj[i + 1..];
      if IsRootIndex(root, name, info) {
        entries.Assign(EntryName(name), EntryValue(style, root, info.absPath));
        continue;
      }
      if IsNamedAfterDir(info) {
        entries.Assign(EntryName(name), EntryValue(style, root, info.absPath));
        continue;
      } else if info.DirItem? {
        Flatten(info.children, root, style, entries);
      }
    }
    assert obj[|obj|..] == [];
  }

  /** `discoverEntries(pathToDir)`, with the file system below `pathToDir` as an input. */
  method DiscoverEntries(pathToDir: string, fs: FsObject, style: ValueStyle) returns (r: Result<Entries, FsError>)
    ensures r == Discovered(pathToDir, fs, style)
  {
    var entries := new EntriesObject();
    var dirTree := GetTree(pathToDir, fs);
    if dirTree.Err? {
      return Err(dirTree.error);
    }
    Flatten(dirTree.value, pathToDir, style, entries);
    return Ok(entries.pairs);
  }
}
