/** The file system seen by the lister: a finite tree of entries.
    A `File` is anything `java.io.File.isDirectory()` rejects; a `Dir` carries the
    array `listFiles()` returns for it, in the file system's own enumeration order;
    an `UnreadableDir` is a directory whose `listFiles()` returns `null`.
    `listFiles()` on a non-directory also returns `null`, which `Listing` reflects. */
module FileTree {

  datatype Option<+T> = None | Some(value: T)

  /** Java's `long`. */
  type Long = x: int | -0x8000_0000_0000_0000 <= x < 0x8000_0000_0000_0000

  /** `path` is `getAbsolutePath()`, `length` is `length()` in bytes, `mtime` is
      `lastModified()` in milliseconds. */
  datatype Node =
    | File(path: string, length: Long, mtime: Long)
    | Dir(path: string, children: seq<Node>, mtime: Long)
    | UnreadableDir(path: string, mtime: Long)

  /** `isDirectory()`. */
  predicate IsDirectory(n: Node)
  {
    !n.File?
  }

  /** `listFiles()` of an entry: `null` for a file or an unreadable directory. */
  function Listing(n: Node): (l: Option<seq<Node>>)
    ensures l.Some? ==> IsDirectory(n)
  {
    if n.Dir? then Some(n.children) else None
  }

  /** The test `filesAndDirectories != null && filesAndDirectories.length > 0`. */
  predicate HasEntries(n: Node)
    ensures HasEntries(n) ==> IsDirectory(n)
  {
    Listing(n).Some? && |Listing(n).value| > 0
  }

  /** The listed children, empty when the listing is `null`. */
  function Kids(n: Node): (kids: seq<Node>)
    ensures |kids| > 0 <==> HasEntries(n)
  {
    if n.Dir? then n.children else []
  }

  /** `d` is `n` itself or lies below it. */
  ghost predicate InTree(d: Node, n: Node)
    decreases n, 1
  {
    d == n || IsDescendant(d, n)
  }

  /** `d` lies strictly below `n`: it is in the subtree of one of `n`'s listed children. */
  ghost predicate IsDescendant(d: Node, n: Node)
    decreases n, 0
  {
    exists i :: 0 <= i < |Kids(n)| && InTree(d, Kids(n)[i])
  }

  /** `File.separatorChar` of the file system modelled. */
  const Sep := '/'

  /** The prefix every child path of directory `p` starts with: `p` followed by one
      separator (`p` itself when it already ends with one, as a root does). */
  function DirPrefix(p: string): (d: string)
    ensures p <= d && |d| > 0 && d[|d| - 1] == Sep
  {
    if |p| > 0 && p[|p| - 1] == Sep then p else p + [Sep]
  }

  /** A single path component: not empty, no separator. */
  predicate IsEntryName(s: string)
  {
    |s| > 0 && Sep !in s
  }

  /** `child` is the absolute path of an entry listed in directory `parent`. */
  predicate IsChildPath(parent: string, child: string)
  {
    DirPrefix(parent) < child && IsEntryName(child[|DirPrefix(parent)|..])
  }

  /** Paths as `getAbsolutePath()` gives them: each listed child's path is its
      directory's path, a separator and a name, and siblings have distinct paths. */
  ghost predicate WellFormedPaths(n: Node)
    decreases n
  {
    (forall i :: 0 <= i < |Kids(n)| ==> IsChildPath(n.path, Kids(n)[i].path) && WellFormedPaths(Kids(n)[i])) &&
    (forall i, j :: 0 <= i < j < |Kids(n)| ==> Kids(n)[i].path != Kids(n)[j].path)
  }

  /** `new File(p).exists()`: the first entry of the tree, in pre-order, whose path is `p`. */
  function Find(fs: Node, p: string): (r: Option<Node>)
    decreases fs, 1
    ensures r.Some? ==> r.value.path == p && InTree(r.value, fs)
    ensures r.None? ==> forall d :: InTree(d, fs) ==> d.path != p
  {
    if fs.path == p then Some(fs)
    else
      var r := FindAmong(fs, |Kids(fs)|, p);
      assert r.None? ==> forall d :: IsDescendant(d, fs) ==> d.path != p;
      r
  }

  /** Searches the subtrees of the first `k` children of `fs`, in order. */
  function FindAmong(fs: Node, k: nat, p: string): (r: Option<Node>)
    requires k <= |Kids(fs)|
    decreases fs, 0, k
    ensures r.Some? ==> r.value.path == p && IsDescendant(r.value, fs)
    ensures r.None? ==> forall i, d :: 0 <= i < k && InTree(d, Kids(fs)[i]) ==> d.path != p
  {
    if k == 0 then None
    else
      match FindAmong(fs, k - 1, p)
      case Some(d) => Some(d)
      case None =>
        var r := Find(Kids(fs)[k - 1], p);
        assert r.Some? ==> IsDescendant(r.value, fs) by {
          if r.Some? { assert InTree(r.value, Kids(fs)[k - 1]); }
        }
        r
  }
}
