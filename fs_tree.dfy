/**
 * `getTree`: the recursive directory scan that turns what the file system
 * holds below a directory into an object from names to
 * `{absPath, type, children?}` items.
 */
module FsTree {
  import opened Wrappers
  import opened NodePath
  import JsObject

  /**
   * What `fs.lstatSync` finds at a path: nothing, something that is not a
   * directory (a file, or a symbolic link, which `lstat` does not follow),
   * a directory that `fs.readdirSync` cannot list (no permission), or a
   * directory together with its `fs.readdirSync` listing.
   */
  datatype FsObject = Absent | NonDirectory | Unreadable | Directory(listing: seq<(string, FsObject)>)

  /** The exceptions `fs.readdirSync` and `fs.lstatSync` throw. */
  datatype FsError = ReadDirFailed(path: string) | StatFailed(path: string)

  /** One value of the scanned tree: `{absPath, type: 'file'}` or `{absPath, type: 'dir', children}`. */
  datatype Item = FileItem(absPath: string) | DirItem(absPath: string, children: seq<(string, Item)>)

  /** The object `getTree` returns, in listing order. */
  type Tree = JsObject.Object<Item>

  /** Every entry of the listing, at every depth, can be stat-ed, and every directory among them listed. */
  predicate Scannable(listing: seq<(string, FsObject)>)
    decreases listing
  {
    listing == [] ||
    (var e := listing[0];
     assert e in listing;
     var o := e.1;
     assert o < e;
     o != Absent && o != Unreadable && (o.Directory? ==> Scannable(o.listing)) && Scannable(listing[1..]))
  }

  /**
   * `tree` is the listing's image, at every depth: the same names in the same
   * order, each item's `absPath` the directory resolved with its name, and a
   * directory item with its own children exactly where the listing holds a
   * directory.
   */
  ghost predicate Mirrors(dir: string, listing: seq<(string, FsObject)>, tree: Tree)
    decreases listing
  {
    |tree| == |listing| &&
    (listing != [] ==>
      var e := listing[0];
      assert e in listing;
      var o := e.1;
      assert o < e;
      var (key, item) := tree[0];
      key == e.0 && item.absPath == Resolve(dir, e.0) &&
      (if o.Directory? then item.DirItem? && Mirrors(item.absPath, o.listing, item.children)
       else item.FileItem?) &&
      Mirrors(dir, listing[1..], tree[1..]))
  }

  /**
   * The `reduce` over one directory's listing: each name is resolved against
   * the directory, stat-ed, and a directory is scanned in turn (its own
   * `readdirSync` first) before the next name is looked at; the first
   * failure aborts the whole scan, and it names a path below `dir`.
   */
  function ScanListing(dir: string, listing: seq<(string, FsObject)>): (r: Result<Tree, FsError>)
    ensures r.Ok? <==> Scannable(listing)
    ensures r.Ok? ==> Mirrors(dir, listing, r.value)
    ensures r.Err? ==> Below(dir, r.error.path)
    decreases listing
  {
    if listing == [] then Ok([])
    else
      var e := listing[0];
      assert e in listing;
      var (name, o) := e;
      assert o < e;
      var absPath := Resolve(dir, name);
      var item: Result<Item, FsError> :=
        match o
        case Absent => Err(StatFailed(absPath))
        case NonDirectory => Ok(FileItem(absPath))
        case Unreadable => Err(ReadDirFailed(absPath))
        case Directory(children) =>
          if |children| == 0 then Ok(DirItem(absPath, []))
          else
            (match ScanListing(absPath, children)
             case Err(err) =>
               BelowNested(dir, name, err.path);
               Err(err)
             case Ok(subtree) => Ok(DirItem(absPath, subtree)));
      assert Below(dir, absPath) by {
        assert absPath[..|dir| + 1] == dir + [Sep];
      }
      match item
      case Err(err) => Err(err)
      case Ok(it) =>
        match ScanListing(dir, listing[1..])
        case Err(err) => Err(err)
        case Ok(rest) =>
          assert ([(name, it)] + rest)[1..] == rest;
          Ok([(name, it)] + rest)
  }

  /**
   * `getTree(pathToDir)`: reading a path that is not a listable directory
   * throws; an empty directory gives `{}`; otherwise the listing is scanned,
   * and a failure below names the path that failed.
   */
  function GetTree(pathToDir: string, o: FsObject): (r: Result<Tree, FsError>)
    ensures r.Ok? <==> o.Directory? && Scannable(o.listing)
    ensures !o.Directory? ==> r == Err(ReadDirFailed(pathToDir))
    ensures o.Directory? && r.Err? ==> Below(pathToDir, r.error.path)
    ensures o.Directory? && r.Ok? ==> Mirrors(pathToDir, o.listing, r.value)
    ensures o == Directory([]) ==> r == Ok([])
  {
    match o
    case Directory(listing) => if |listing| != 0 then ScanListing(pathToDir, listing) else Ok([])
    case _ => Err(ReadDirFailed(pathToDir))
  }

  /** One level of `Mirrors`, position by position. */
  lemma {:induction false} MirrorsAt(dir: string, listing: seq<(string, FsObject)>, tree: Tree, i: nat)
    requires Mirrors(dir, listing, tree) && i < |listing|
    ensures tree[i].0 == listing[i].0
    ensures tree[i].1.absPath == Resolve(dir, listing[i].0)
    ensures tree[i].1.DirItem? <==> listing[i].1.Directory?
  {
    if i > 0 {
      MirrorsAt(dir, listing[1..], tree[1..], i - 1);
    }
  }

  /**
   * The scan's result has exactly the listing's names as keys, in listing
   * order; each item's `absPath` is the directory joined with its name; an
   * item has children exactly when it is a directory.
   */
  lemma GetTreeShape(pathToDir: string, listing: seq<(string, FsObject)>)
    requires Scannable(listing)
    ensures GetTree(pathToDir, Directory(listing)).Ok?
    ensures var t := GetTree(pathToDir, Directory(listing)).value;
      JsObject.Keys(t) == JsObject.Keys(listing) &&
      forall i :: 0 <= i < |t| ==>
        t[i].1.absPath == Resolve(pathToDir, listing[i].0) &&
        (t[i].1.DirItem? <==> listing[i].1.Directory?)
  {
    var t := GetTree(pathToDir, Directory(listing)).value;
    forall i | 0 <= i < |t|
      ensures t[i].0 == listing[i].0
      ensures t[i].1.absPath == Resolve(pathToDir, listing[i].0)
      ensures t[i].1.DirItem? <==> listing[i].1.Directory?
    {
      MirrorsAt(pathToDir, listing, t, i);
    }
  }
}
