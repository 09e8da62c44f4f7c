/**
 * What `discoverEntries` promises, proved about `Discovery.Flattened`: the
 * walk is a left fold over the tree's files in depth-first order; only
 * selected files are ever stored; every selected file's name ends up as a
 * key; and when several files give the same name, the last one visited wins.
 */
module DiscoveryProperties {
  import opened Wrappers
  import opened JsString
  import opened NodePath
  import opened FsTree
  import opened Discovery
  import JsObject

  /** The file entries of a tree in the order `flatten` meets them: depth first, in listing order. */
  function Files(obj: Tree): (fs: seq<(string, Item)>)
    ensures forall i :: 0 <= i < |fs| ==> fs[i].1.FileItem?
    decreases obj
  {
    if obj == [] then []
    else
      var e := obj[0];
      assert e in obj;
      var info := e.1;
      assert info < e;
      (if info.DirItem? then Files(info.children) else [e]) + Files(obj[1..])
  }

  /** `e` is selected and stored under the name `k`. */
  predicate SelectsKey(root: string, e: (string, Item), k: string) {
    Selected(root, e) && EntryName(e.0) == k
  }

  /** What visiting one file does to the entries object. */
  function Visit(entries: Entries, e: (string, Item), root: string, style: ValueStyle): Entries {
    if Selected(root, e) then JsObject.Set(entries, EntryName(e.0), EntryValue(style, root, e.1.absPath))
    else entries
  }

  /** Visiting a sequence of files one after the other. */
  function Fold(entries: Entries, fs: seq<(string, Item)>, root: string, style: ValueStyle): Entries
    decreases fs
  {
    if fs == [] then entries else Fold(Visit(entries, fs[0], root, style), fs[1..], root, style)
  }

  lemma {:induction false} FoldAppend(entries: Entries, a: seq<(string, Item)>, b: seq<(string, Item)>, root: string, style: ValueStyle)
    ensures Fold(entries, a + b, root, style) == Fold(Fold(entries, a, root, style), b, root, style)
    decreases a
  {
    if a == [] {
      assert a + b == b;
    } else {
      assert (a + b)[0] == a[0] && (a + b)[1..] == a[1..] + b;
      FoldAppend(Visit(entries, a[0], root, style), a[1..], b, root, style);
    }
  }

  /** The recursive walk is the same as visiting the tree's files in depth-first order. */
  lemma {:induction false} FlattenedIsFoldOverFiles(entries: Entries, obj: Tree, root: string, style: ValueStyle)
    ensures Flattened(entries, obj, root, style) == Fold(entries, Files(obj), root, style)
    decreases obj
  {
    if obj != [] {
      var e := obj[0];
      assert e in obj;
      var info := e.1;
      assert info < e;
      var rest := Files(obj[1..]);
      if info.DirItem? {
        var inner := Flattened(entries, info.children, root, style);
        FlattenedIsFoldOverFiles(entries, info.children, root, style);
        FlattenedIsFoldOverFiles(inner, obj[1..], root, style);
        FoldAppend(entries, Files(info.children), rest, root, style);
      } else {
        var next := Visit(entries, e, root, style);
        FlattenedIsFoldOverFiles(next, obj[1..], root, style);
        assert ([e] + rest)[0] == e && ([e] + rest)[1..] == rest;
      }
    }
  }

  /** A name no visited file is stored under keeps whatever value it had. */
  lemma {:induction false} FoldUntouched(entries: Entries, fs: seq<(string, Item)>, root: string, style: ValueStyle, k: string)
    requires forall i :: 0 <= i < |fs| ==> !SelectsKey(root, fs[i], k)
    ensures JsObject.Get(Fold(entries, fs, root, style), k) == JsObject.Get(entries, k)
    decreases fs
  {
    if fs != [] {
      assert !SelectsKey(root, fs[0], k);
      if Selected(root, fs[0]) {
        JsObject.SetGet(entries, EntryName(fs[0].0), EntryValue(style, root, fs[0].1.absPath), k);
      }
      FoldUntouched(Visit(entries, fs[0], root, style), fs[1..], root, style, k);
    }
  }

  /** Last write wins: a name holds the value of the last visited file stored under it. */
  lemma {:induction false} FoldLastWins(entries: Entries, fs: seq<(string, Item)>, root: string, style: ValueStyle, k: string, i: nat)
    requires i < |fs| && SelectsKey(root, fs[i], k)
    requires forall j :: i < j < |fs| ==> !SelectsKey(root, fs[j], k)
    ensures JsObject.Get(Fold(entries, fs, root, style), k) == Some(EntryValue(style, root, fs[i].1.absPath))
    decreases fs
  {
    if i == 0 {
      JsObject.SetGet(entries, k, EntryValue(style, root, fs[0].1.absPath), k);
      FoldUntouched(Visit(entries, fs[0], root, style), fs[1..], root, style, k);
    } else {
      FoldLastWins(Visit(entries, fs[0], root, style), fs[1..], root, style, k, i - 1);
    }
  }

  /** Every value stored during the walk is derived from a selected file stored under that name. */
  lemma {:induction false} FoldValuesFromFiles(entries: Entries, fs: seq<(string, Item)>, root: string, style: ValueStyle, k: string)
    requires JsObject.Get(Fold(entries, fs, root, style), k) != JsObject.Get(entries, k)
    ensures exists i :: (0 <= i < |fs| && SelectsKey(root, fs[i], k) &&
      JsObject.Get(Fold(entries, fs, root, style), k) == Some(EntryValue(style, root, fs[i].1.absPath)))
  {
    var marks := Marks(fs, root, k);
    var last := LastMarked(marks, |marks|);
    if last.None? {
      FoldUntouched(entries, fs, root, style, k);
    } else {
      FoldLastWins(entries, fs, root, style, k, last.value);
    }
  }

  /** For each file, whether it is stored under `k`. */
  function Marks(fs: seq<(string, Item)>, root: string, k: string): (bs: seq<bool>)
    ensures |bs| == |fs| && forall j :: 0 <= j < |fs| ==> (bs[j] <==> SelectsKey(root, fs[j], k))
  {
    seq(|fs|, j requires 0 <= j < |fs| => SelectsKey(root, fs[j], k))
  }

  /** The last marked index among the first `n`, if any. */
  function LastMarked(bs: seq<bool>, n: nat): (r: Option<nat>)
    requires n <= |bs|
    ensures r.None? ==> forall j :: 0 <= j < n ==> !bs[j]
    ensures r.Some? ==> r.value < n && bs[r.value] && forall j :: r.value < j < n ==> !bs[j]
  {
    if n == 0 then None
    else if bs[n - 1] then Some(n - 1)
    else LastMarked(bs, n - 1)
  }

  /** Entries are only added or updated during the walk: keys already present stay, in their order. */
  lemma {:induction false} FoldKeepsKeyOrder(entries: Entries, fs: seq<(string, Item)>, root: string, style: ValueStyle)
    ensures JsObject.Keys(entries) <= JsObject.Keys(Fold(entries, fs, root, style))
    decreases fs
  {
    if fs != [] {
      var next := Visit(entries, fs[0], root, style);
      FoldKeepsKeyOrder(next, fs[1..], root, style);
    }
  }

  /** The walk never stores a name twice. */
  lemma {:induction false} FoldKeepsKeysUnique(entries: Entries, fs: seq<(string, Item)>, root: string, style: ValueStyle)
    requires JsObject.UniqueKeys(entries)
    ensures JsObject.UniqueKeys(Fold(entries, fs, root, style))
    decreases fs
  {
    if fs != [] {
      if Selected(root, fs[0]) {
        JsObject.SetKeepsKeysUnique(entries, EntryName(fs[0].0), EntryValue(style, root, fs[0].1.absPath));
      }
      FoldKeepsKeysUnique(Visit(entries, fs[0], root, style), fs[1..], root, style);
    }
  }

  /**
   * `discoverEntries` on a scannable root: every stored value comes from a
   * file (never a directory) that a rule selects under that very name; every
   * selected file's name is a key; the last selected file with a name wins;
   * no name is stored twice.
   */
  lemma DiscoveredEntries(root: string, fs: FsObject, style: ValueStyle, k: string)
    requires Discovered(root, fs, style).Ok?
    ensures GetTree(root, fs).Ok?
    ensures var files := Files(GetTree(root, fs).value);
      var m := Discovered(root, fs, style).value;
      JsObject.UniqueKeys(m) &&
      (k in JsObject.Keys(m) <==> exists i :: 0 <= i < |files| && SelectsKey(root, files[i], k)) &&
      (k in JsObject.Keys(m) ==> exists i :: (0 <= i < |files| && SelectsKey(root, files[i], k) &&
         files[i].1.FileItem? && JsObject.Get(m, k) == Some(EntryValue(style, root, files[i].1.absPath))))
  {
    var t := GetTree(root, fs).value;
    var files := Files(t);
    FlattenedIsFoldOverFiles([], t, root, style);
    FoldKeepsKeysUnique([], files, root, style);
    var marks := Marks(files, root, k);
    var last := LastMarked(marks, |marks|);
    if last.None? {
      FoldUntouched([], files, root, style, k);
    } else {
      FoldLastWins([], files, root, style, k, last.value);
    }
  }

  /** A later selected file with the same entry name overwrites an earlier one. */
  lemma DiscoveredLastWins(root: string, fs: FsObject, style: ValueStyle, k: string, i: nat)
    requires GetTree(root, fs).Ok?
    requires var files := Files(GetTree(root, fs).value);
      i < |files| && SelectsKey(root, files[i], k) &&
      forall j :: i < j < |files| ==> !SelectsKey(root, files[j], k)
    ensures var files := Files(GetTree(root, fs).value);
      JsObject.Get(Discovered(root, fs, style).value, k) == Some(EntryValue(style, root, files[i].1.absPath))
  {
    var t := GetTree(root, fs).value;
    FlattenedIsFoldOverFiles([], t, root, style);
    FoldLastWins([], Files(t), root, style, k, i);
  }

  /**
   * Rule 1, for a file the scan found as `name` in directory `parent`: it
   * applies exactly when that directory is the root and the name is
   * `index.js`, and it stores the entry `index`.
   */
  lemma RootIndexRule(root: string, parent: string, name: string)
    requires parent != [] && Sep !in name
    ensures IsRootIndex(root, name, FileItem(Resolve(parent, name))) <==> parent == root && name == "index.js"
    ensures EntryName("index.js") == "index"
  {
    DirnameOfResolve(parent, name);
    ReplaceFirstAfter("index", ".js", "", "");
    assert "index" + ".js" + "" == "index.js";
    assert "index" + "" + "" == "index";
  }

  /**
   * Rule 2, for a file `f` the scan found in directory `d`: it applies exactly
   * when `f` without its first `.js` is `d`, wherever `d` itself lies.
   */
  lemma NamedAfterDirRule(parent: string, d: string, f: string)
    requires Sep !in d && Sep !in f
    ensures IsNamedAfterDir(FileItem(Resolve(Resolve(parent, d), f))) <==> EntryName(f) == d
  {
    BasenameOfResolve(Resolve(parent, d), f);
    ParentDirNameOfResolve(parent, d, f);
  }

  /**
   * Only the first `.js` is removed before comparing: a file `d` without any
   * extension in directory `d` is selected under `d`, while `d.json` becomes
   * `don` and is not.
   */
  lemma FirstJsOnly(d: string)
    requires '.' !in d
    ensures EntryName(d) == d
    ensures EntryName(d + ".json") == d + "on" && EntryName(d + ".json") != d
  {
    ReplaceFirstAbsent(d, ".js", "");
    ReplaceFirstAfter(d, ".js", "on", "");
    assert d + ".json" == d + ".js" + "on";
    assert d + "" + "on" == d + "on";
    assert |d + "on"| != |d|;
  }

  /** Every file a mirrored tree holds lies below the directory that was scanned. */
  lemma {:induction false} FilesBelow(dir: string, listing: seq<(string, FsObject)>, tree: Tree)
    requires Mirrors(dir, listing, tree)
    ensures forall i :: 0 <= i < |Files(tree)| ==> Below(dir, Files(tree)[i].1.absPath)
    decreases listing
  {
    if listing != [] {
      var e := listing[0];
      assert e in listing;
      var o := e.1;
      assert o < e;
      var t := tree[0];
      assert t in tree;
      assert t.1 < t;
      var item := t.1;
      var here := if item.DirItem? then Files(item.children) else [t];
      assert Files(tree) == here + Files(tree[1..]);
      FilesBelow(dir, listing[1..], tree[1..]);
      if o.Directory? {
        FilesBelow(item.absPath, o.listing, item.children);
        forall i | 0 <= i < |here| ensures Below(dir, here[i].1.absPath) {
          BelowNested(dir, e.0, here[i].1.absPath);
        }
      } else {
        assert Resolve(dir, e.0)[..|dir| + 1] == dir + [Sep];
      }
    }
  }

  /** The value stored for a path below the root lies below the root, or below `.` once the root is replaced. */
  lemma EntryValueBelow(root: string, style: ValueStyle, p: string)
    requires Below(root, p)
    ensures style == AbsolutePath ==> Below(root, EntryValue(style, root, p))
    ensures style == RootRelative ==> Below(".", EntryValue(style, root, p))
  {
    var tail := p[|root|..];
    assert p == root + tail;
    ReplacePrefix(root, tail, ".");
    assert tail[0] == Sep;
    assert ("." + tail)[..2] == ['.', Sep];
  }

  /**
   * The values `discoverEntries` stores lie below the root: absolute paths
   * under it (webpack-utils.js), or, with the root replaced by `.`, paths of
   * the form `.\...` (MPA/webpack.common.js and dir.js).
   */
  lemma DiscoveredValuesBelowRoot(root: string, fs: FsObject, style: ValueStyle, k: string)
    requires Discovered(root, fs, style).Ok?
    requires k in JsObject.Keys(Discovered(root, fs, style).value)
    ensures var v := JsObject.Get(Discovered(root, fs, style).value, k);
      v.Some? &&
      (style == AbsolutePath ==> Below(root, v.value)) &&
      (style == RootRelative ==> Below(".", v.value))
  {
    DiscoveredEntries(root, fs, style, k);
    var t := GetTree(root, fs).value;
    var files := Files(t);
    var m := Discovered(root, fs, style).value;
    var i :| 0 <= i < |files| && SelectsKey(root, files[i], k) &&
      files[i].1.FileItem? && JsObject.Get(m, k) == Some(EntryValue(style, root, files[i].1.absPath));
    FilesBelow(root, fs.listing, t);
    EntryValueBelow(root, style, files[i].1.absPath);
  }
}
