/**
 * The parts of Node's `path` module the discovery code uses, under one fixed
 * separator. The repository targets Windows, so the separator is '\'.
 * `path.normalize` is the identity here and `path.resolve(dir, name)` is
 * `dir + sep + name`.
 */
module NodePath {
  import opened Wrappers

  /** `path.sep`. */
  const Sep: char := '\\'

  /** Index of the last separator in `p`, if any. */
  function LastSep(p: string): (r: Option<nat>)
    ensures r.Some? ==> r.value < |p| && p[r.value] == Sep && Sep !in p[r.value + 1..]
    ensures r.None? <==> Sep !in p
  {
    if p == [] then None
    else if p[|p| - 1] == Sep then Some(|p| - 1)
    else
      var r := LastSep(p[..|p| - 1]);
      assert p == p[..|p| - 1] + [p[|p| - 1]];
      r
  }

  /** `path.dirname(p)`: everything before the last separator ("." when there is none, the separator itself for a path just below the root). */
  function Dirname(p: string): string {
    match LastSep(p)
    case None => "."
    case Some(i) => if i == 0 then [Sep] else p[..i]
  }

  /** `path.basename(p)`: everything after the last separator. */
  function Basename(p: string): (r: string)
    ensures Sep !in r
  {
    match LastSep(p)
    case None => p
    case Some(i) => p[i + 1..]
  }

  /** `path.resolve(dir, name)` for a directory and a single name. */
  function Resolve(dir: string, name: string): string {
    dir + [Sep] + name
  }

  /** `getParentDirName(p)`: the name, not the path, of the directory holding `p`. */
  function ParentDirName(p: string): (r: string)
    ensures Sep !in r
    ensures Sep !in p ==> r == "."
  {
    Basename(Dirname(p))
  }

  /** `p` lies somewhere below the directory `dir`: it starts with `dir` and a separator. */
  predicate Below(dir: string, p: string) {
    |dir| < |p| && p[..|dir| + 1] == dir + [Sep]
  }

  /** What lies below a subdirectory lies below its parent. */
  lemma BelowNested(dir: string, name: string, p: string)
    requires Below(Resolve(dir, name), p)
    ensures Below(dir, p)
  {
    var sub := Resolve(dir, name);
    assert p[..|dir| + 1] == p[..|sub| + 1][..|dir| + 1];
    assert (sub + [Sep])[..|dir| + 1] == dir + [Sep];
  }

  /** The last separator of `q + name` is the one that ends `q` when `name` holds none. */
  lemma {:induction false} LastSepBeforeName(q: string, name: string)
    requires q != [] && q[|q| - 1] == Sep && Sep !in name
    ensures LastSep(q + name) == Some(|q| - 1)
  {
    if name == [] {
      assert q + name == q;
    } else {
      var p := q + name;
      assert p[..|p| - 1] == q + name[..|name| - 1];
      assert p[|p| - 1] == name[|name| - 1];
      LastSepBeforeName(q, name[..|name| - 1]);
    }
  }

  /** Resolving a name against a directory and taking the basename gives the name back. */
  lemma BasenameOfResolve(dir: string, name: string)
    requires Sep !in name
    ensures Basename(Resolve(dir, name)) == name
  {
    LastSepBeforeName(dir + [Sep], name);
    assert Resolve(dir, name)[|dir| + 1..] == name;
  }

  /** Resolving a name against a non-empty directory and taking the dirname gives the directory back. */
  lemma DirnameOfResolve(dir: string, name: string)
    requires Sep !in name && dir != []
    ensures Dirname(Resolve(dir, name)) == dir
  {
    LastSepBeforeName(dir + [Sep], name);
    assert Resolve(dir, name)[..|dir|] == dir;
  }

  /** A file resolved inside a directory resolved inside `root` has that directory's name as its parent name. */
  lemma ParentDirNameOfResolve(root: string, dirName: string, fileName: string)
    requires Sep !in dirName && Sep !in fileName
    ensures ParentDirName(Resolve(Resolve(root, dirName), fileName)) == dirName
  {
    DirnameOfResolve(Resolve(root, dirName), fileName);
    BasenameOfResolve(root, dirName);
  }
}
