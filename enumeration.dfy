/** What `enumerateDirectory` puts in the listing, as a function of the tree: the rows
    of a pre-order, depth-first walk below (never including) the walked entry.
    `fmt` stands for `formattedDateString`, which depends on `SimpleDateFormat` and the
    local time zone and is not modelled. */
module Enumeration {

  import opened FileTree
  import opened SizeString
  import SeqFacts

  const EmptyFolderText := "This is an empty folder"
  const DirectorySize := "N/A"
  const DirectoryKind := "Directory"
  const FileKind := "File"

  /** One call of `gui.updateListing(name, size, type, modified)`. */
  datatype Row = Row(name: string, size: string, kind: string, modified: string)

  /** The row shown in place of the children of an entry with nothing listed. */
  function SentinelRow(mtime: Long, fmt: Long -> string): Row
  {
    Row(EmptyFolderText, "", "", fmt(mtime))
  }

  /** The row of a listed entry, directory or file. */
  function EntryRow(e: Node, fmt: Long -> string): Row
  {
    if IsDirectory(e) then Row(e.path, DirectorySize, DirectoryKind, fmt(e.mtime))
    else Row(e.path, GetSizeString(e.length), FileKind, fmt(e.mtime))
  }

  /** The sentinel is dated by its entry and is of neither the directory nor the
      file kind. */
  lemma SentinelRowFields(mtime: Long, fmt: Long -> string)
    ensures var r := SentinelRow(mtime, fmt);
      r.name == EmptyFolderText && r.modified == fmt(mtime) && r.kind != DirectoryKind && r.kind != FileKind
  {
  }

  /** An entry's row is named after and dated by that entry, and has the directory
      kind and the "N/A" size exactly when the entry is a directory. */
  lemma EntryRowFields(e: Node, fmt: Long -> string)
    ensures var r := EntryRow(e, fmt);
      && r.name == e.path && r.modified == fmt(e.mtime)
      && (r.kind == DirectoryKind <==> IsDirectory(e))
      && (r.size == DirectorySize <==> IsDirectory(e))
  {
    if e.File? { SizeStringShape(e.length); }
  }

  /** All rows `enumerateDirectory(n)` appends. */
  function Rows(n: Node, fmt: Long -> string): (rows: seq<Row>)
    decreases n, 1
    ensures |rows| >= 1
  {
    if HasEntries(n) then ChildrenRows(n, |Kids(n)|, fmt) else [SentinelRow(n.mtime, fmt)]
  }

  /** The rows appended by the first `k` turns of the loop over `n`'s listing. */
  function ChildrenRows(n: Node, k: nat, fmt: Long -> string): (rows: seq<Row>)
    requires k <= |Kids(n)|
    decreases n, 0, k
    ensures |rows| >= k
  {
    if k == 0 then [] else ChildrenRows(n, k - 1, fmt) + EntryRows(Kids(n)[k - 1], fmt)
  }

  /** One turn of the loop: the child's own row, then, for a directory, its whole walk. */
  function EntryRows(e: Node, fmt: Long -> string): (rows: seq<Row>)
    decreases e, 2
    ensures |rows| >= 1
  {
    [EntryRow(e, fmt)] + if IsDirectory(e) then Rows(e, fmt) else []
  }

  /** Where the block of the `j`-th child starts in the walk of `n`. */
  function Offset(n: Node, j: nat, fmt: Long -> string): nat
    requires j <= |Kids(n)|
  {
    |ChildrenRows(n, j, fmt)|
  }

  // ---------------------------------------------------------------------------
  // Row count
  // ---------------------------------------------------------------------------

  /** The number of rows, counted without building them: one for an entry with
      nothing listed, otherwise one per child plus the count of each child directory. */
  function RowCount(n: Node): nat
    decreases n, 1
  {
    if HasEntries(n) then ChildrenCount(n, |Kids(n)|) else 1
  }

  function ChildrenCount(n: Node, k: nat): nat
    requires k <= |Kids(n)|
    decreases n, 0, k
  {
    if k == 0 then 0
    else
      var c := Kids(n)[k - 1];
      ChildrenCount(n, k - 1) + 1 + if IsDirectory(c) then RowCount(c) else 0
  }

  lemma {:induction false} RowsCount(n: Node, fmt: Long -> string)
    decreases n, 1
    ensures |Rows(n, fmt)| == RowCount(n)
  {
    if HasEntries(n) { ChildrenRowsCount(n, |Kids(n)|, fmt); }
  }

  lemma {:induction false} ChildrenRowsCount(n: Node, k: nat, fmt: Long -> string)
    requires k <= |Kids(n)|
    decreases n, 0, k
    ensures |ChildrenRows(n, k, fmt)| == ChildrenCount(n, k)
  {
    if k > 0 {
      ChildrenRowsCount(n, k - 1, fmt);
      var c := Kids(n)[k - 1];
      EntryRowsLength(c, fmt);
      if IsDirectory(c) { RowsCount(c, fmt); }
    }
  }

  /** The loop turn for a directory: its row, then its walk. This and the next four
      lemmas only unfold `EntryRows` and `Rows`; they spell out the row contents
      that `EnumerateDirectory` carries over to the table. */
  lemma DirectoryEntryRows(e: Node, fmt: Long -> string)
    requires IsDirectory(e)
    ensures EntryRows(e, fmt) == [Row(e.path, DirectorySize, DirectoryKind, fmt(e.mtime))] + Rows(e, fmt)
  {
  }

  /** The loop turn for a file: its row alone (an unfolding of `EntryRows`). */
  lemma FileEntryRows(e: Node, fmt: Long -> string)
    requires !IsDirectory(e)
    ensures EntryRows(e, fmt) == [Row(e.path, GetSizeString(e.length), FileKind, fmt(e.mtime))]
  {
  }

  /** The length of one loop turn (an unfolding of `EntryRows`). */
  lemma EntryRowsLength(e: Node, fmt: Long -> string)
    ensures |EntryRows(e, fmt)| == 1 + if IsDirectory(e) then |Rows(e, fmt)| else 0
  {
  }

  /** Any entry that exists yields at least one row. */
  lemma {:induction false} RowCountPositive(n: Node)
    decreases n, 1
    ensures RowCount(n) >= 1
  {
    if HasEntries(n) { ChildrenCountAtLeast(n, |Kids(n)|); }
  }

  lemma {:induction false} ChildrenCountAtLeast(n: Node, k: nat)
    requires k <= |Kids(n)|
    decreases n, 0, k
    ensures ChildrenCount(n, k) >= k
  {
    if k > 0 { ChildrenCountAtLeast(n, k - 1); }
  }

  /** A directory with entries yields exactly one row per child if and only if no
      listed child is a directory: any child directory, even an empty one, adds rows
      of its own. */
  lemma {:induction false} FlatDirectoryCount(n: Node, fmt: Long -> string)
    requires HasEntries(n)
    ensures |Rows(n, fmt)| == |Kids(n)| <==> forall i :: 0 <= i < |Kids(n)| ==> !IsDirectory(Kids(n)[i])
  {
    if forall i :: 0 <= i < |Kids(n)| ==> !IsDirectory(Kids(n)[i]) {
      FlatChildrenCount(n, |Kids(n)|, fmt);
    } else {
      var i :| 0 <= i < |Kids(n)| && IsDirectory(Kids(n)[i]);
      ChildrenCountAbove(n, |Kids(n)|, i);
      RowsCount(n, fmt);
    }
  }

  /** A child directory among the first `k` children adds at least one row beyond
      one per child. */
  lemma {:induction false} ChildrenCountAbove(n: Node, k: nat, i: nat)
    requires i < k <= |Kids(n)| && IsDirectory(Kids(n)[i])
    decreases k
    ensures ChildrenCount(n, k) >= k + 1
  {
    if i == k - 1 {
      ChildrenCountAtLeast(n, k - 1);
      RowCountPositive(Kids(n)[i]);
    } else {
      ChildrenCountAbove(n, k - 1, i);
    }
  }

  lemma {:induction false} FlatChildrenCount(n: Node, k: nat, fmt: Long -> string)
    requires k <= |Kids(n)|
    requires forall i :: 0 <= i < k ==> !IsDirectory(Kids(n)[i])
    ensures |ChildrenRows(n, k, fmt)| == k
  {
    if k > 0 { FlatChildrenCount(n, k - 1, fmt); }
  }

  // ---------------------------------------------------------------------------
  // Empty listings
  // ---------------------------------------------------------------------------

  /** An entry with an empty or `null` listing (a file, an unreadable or empty
      directory) yields exactly the sentinel row, dated by the entry itself (an
      unfolding of `Rows`). */
  lemma EmptyListingRows(n: Node, fmt: Long -> string)
    requires !HasEntries(n)
    ensures Rows(n, fmt) == [SentinelRow(n.mtime, fmt)]
  {
  }

  /** An empty subdirectory met during the walk contributes its own row and the
      sentinel (an unfolding of `EntryRows` and `Rows`). */
  lemma EmptySubdirectoryRows(e: Node, fmt: Long -> string)
    requires IsDirectory(e) && !HasEntries(e)
    ensures EntryRows(e, fmt) == [EntryRow(e, fmt), SentinelRow(e.mtime, fmt)]
  {
  }

  // ---------------------------------------------------------------------------
  // Order: one block per child, in listing order, pre-order inside each block
  // ---------------------------------------------------------------------------

  /** The rows of the first `j` children are a prefix of those of the first `k`. */
  lemma {:induction false} ChildrenRowsPrefix(n: Node, j: nat, k: nat, fmt: Long -> string)
    requires j <= k <= |Kids(n)|
    decreases k
    ensures ChildrenRows(n, j, fmt) <= ChildrenRows(n, k, fmt)
  {
    if j < k {
      ChildrenRowsPrefix(n, j, k - 1, fmt);
      SeqFacts.PrefixTransitive(ChildrenRows(n, j, fmt), ChildrenRows(n, k - 1, fmt), ChildrenRows(n, k, fmt));
    }
  }

  /** The walk of a directory with entries is cut into consecutive blocks, one per
      listed child in listing order: the block of child `j` is that child's own row,
      followed (for a directory) by its whole walk, before the next sibling's row.
      The walked entry itself has no row of its own. */
  lemma ChildBlock(n: Node, j: nat, fmt: Long -> string)
    requires HasEntries(n) && j < |Kids(n)|
    ensures Offset(n, 0, fmt) == 0 && Offset(n, |Kids(n)|, fmt) == |Rows(n, fmt)|
    ensures Offset(n, j, fmt) < Offset(n, j + 1, fmt) <= |Rows(n, fmt)|
    ensures Rows(n, fmt)[Offset(n, j, fmt)..Offset(n, j + 1, fmt)] == EntryRows(Kids(n)[j], fmt)
    ensures Rows(n, fmt)[Offset(n, j, fmt)] == EntryRow(Kids(n)[j], fmt)
  {
    var c := Kids(n)[j];
    ChildrenRowsPrefix(n, j + 1, |Kids(n)|, fmt);
    assert ChildrenRows(n, j + 1, fmt) == ChildrenRows(n, j, fmt) + EntryRows(c, fmt);
    SeqFacts.BlockOfPrefix(ChildrenRows(n, j, fmt), EntryRows(c, fmt), Rows(n, fmt));
    assert EntryRows(c, fmt)[0] == EntryRow(c, fmt);
  }

  // ---------------------------------------------------------------------------
  // Completeness and soundness against the tree
  // ---------------------------------------------------------------------------

  /** An entry whose listing the walk asks for: the walked entry, or a directory below it. */
  ghost predicate Walked(x: Node, n: Node)
  {
    x == n || (IsDirectory(x) && IsDescendant(x, n))
  }

  /** A row the walk of `n` may legitimately produce: the row of an entry below `n`,
      or the sentinel of a walked entry whose listing is empty or `null`. */
  ghost predicate Explained(r: Row, n: Node, fmt: Long -> string)
  {
    (exists d :: IsDescendant(d, n) && r == EntryRow(d, fmt)) ||
    (exists x :: Walked(x, n) && !HasEntries(x) && r == SentinelRow(x.mtime, fmt))
  }

  lemma ChildInTree(n: Node, i: nat, d: Node)
    requires i < |Kids(n)| && InTree(d, Kids(n)[i])
    ensures IsDescendant(d, n)
  {
  }

  /** Every entry below `n` has its row in the walk of `n`. */
  lemma {:induction false} RowsComplete(n: Node, d: Node, fmt: Long -> string)
    requires IsDescendant(d, n)
    decreases n
    ensures EntryRow(d, fmt) in Rows(n, fmt)
  {
    var i :| 0 <= i < |Kids(n)| && InTree(d, Kids(n)[i]);
    var c := Kids(n)[i];
    ChildBlock(n, i, fmt);
    var block := Rows(n, fmt)[Offset(n, i, fmt)..Offset(n, i + 1, fmt)];
    if d == c {
      assert block[0] == EntryRow(d, fmt);
    } else {
      assert IsDescendant(d, c);
      assert IsDirectory(c);
      RowsComplete(c, d, fmt);
      assert EntryRows(c, fmt) == [EntryRow(c, fmt)] + Rows(c, fmt);
      assert EntryRow(d, fmt) in block;
    }
  }

  /** Every walked entry with nothing listed, the walked one itself or a directory
      at any depth below it, has its sentinel row in the walk of `n`. */
  lemma {:induction false} SentinelComplete(n: Node, x: Node, fmt: Long -> string)
    requires Walked(x, n) && !HasEntries(x)
    decreases n
    ensures SentinelRow(x.mtime, fmt) in Rows(n, fmt)
  {
    if x == n {
      assert Rows(n, fmt) == [SentinelRow(x.mtime, fmt)];
    } else {
      var i :| 0 <= i < |Kids(n)| && InTree(x, Kids(n)[i]);
      var c := Kids(n)[i];
      ChildBlock(n, i, fmt);
      var k: nat;
      if x == c {
        k := 0;
        assert Rows(c, fmt) == [SentinelRow(x.mtime, fmt)];
      } else {
        assert Walked(x, c);
        SentinelComplete(c, x, fmt);
        k :| 0 <= k < |Rows(c, fmt)| && Rows(c, fmt)[k] == SentinelRow(x.mtime, fmt);
      }
      DirectoryEntryRows(c, fmt);
      assert EntryRows(c, fmt)[1 + k] == SentinelRow(x.mtime, fmt);
      RowInBlock(n, i, Offset(n, i, fmt) + 1 + k, fmt);
    }
  }

  /** Every row of the walk of `n` is explained by the tree below `n`. */
  lemma {:induction false} RowsSound(n: Node, fmt: Long -> string)
    decreases n, 1
    ensures forall r :: r in Rows(n, fmt) ==> Explained(r, n, fmt)
  {
    if HasEntries(n) {
      ChildrenRowsSound(n, |Kids(n)|, fmt);
    } else {
      assert Walked(n, n);
    }
  }

  lemma {:induction false} ChildrenRowsSound(n: Node, k: nat, fmt: Long -> string)
    requires k <= |Kids(n)|
    decreases n, 0, k
    ensures forall r :: r in ChildrenRows(n, k, fmt) ==> Explained(r, n, fmt)
  {
    if k > 0 {
      ChildrenRowsSound(n, k - 1, fmt);
      var c := Kids(n)[k - 1];
      assert IsDescendant(c, n) by { assert InTree(c, Kids(n)[k - 1]); }
      if IsDirectory(c) {
        RowsSound(c, fmt);
        forall r | r in Rows(c, fmt) ensures Explained(r, n, fmt) {
          ExplainedInParent(r, n, k - 1, fmt);
        }
      }
    }
  }

  /** Every row is one of three kinds: a directory row ("N/A", "Directory"), a file
      row (a size string that reads back as a kilobyte count, "File"), or the sentinel
      (empty size and type). */
  lemma RowsClassified(n: Node, fmt: Long -> string)
    ensures forall r :: r in Rows(n, fmt) ==>
      || (r.kind == DirectoryKind && r.size == DirectorySize)
      || (r.kind == FileKind && ParseSizeString(r.size).Some?)
      || (r.name == EmptyFolderText && r.size == "" && r.kind == "")
  {
    RowsSound(n, fmt);
    forall r | r in Rows(n, fmt) && r.kind == FileKind
      ensures ParseSizeString(r.size).Some?
    {
      if exists d :: IsDescendant(d, n) && r == EntryRow(d, fmt) {
        var d :| IsDescendant(d, n) && r == EntryRow(d, fmt);
        SizeStringRoundTrip(d.length);
      }
    }
  }

  /** A row explained by a child directory's walk is explained by its parent's. */
  lemma ExplainedInParent(r: Row, n: Node, i: nat, fmt: Long -> string)
    requires i < |Kids(n)| && IsDirectory(Kids(n)[i])
    requires Explained(r, Kids(n)[i], fmt)
    ensures Explained(r, n, fmt)
  {
    var c := Kids(n)[i];
    if exists d :: IsDescendant(d, c) && r == EntryRow(d, fmt) {
      var d :| IsDescendant(d, c) && r == EntryRow(d, fmt);
      ChildInTree(n, i, d);
    } else {
      var x :| Walked(x, c) && !HasEntries(x) && r == SentinelRow(x.mtime, fmt);
      ChildInTree(n, i, x);
      assert Walked(x, n);
    }
  }

  // ---------------------------------------------------------------------------
  // Row names: the walked entry never gets a row, each child exactly one
  // ---------------------------------------------------------------------------

  /** With paths as a real file system gives them, every row names either the
      sentinel text or a path below the directory prefix of the walked entry. */
  lemma {:induction false} RowNamesBelow(n: Node, fmt: Long -> string)
    requires WellFormedPaths(n)
    decreases n, 1
    ensures forall r :: r in Rows(n, fmt) ==> r.name == EmptyFolderText || DirPrefix(n.path) < r.name
  {
    if HasEntries(n) { ChildrenRowNamesBelow(n, |Kids(n)|, fmt); }
  }

  lemma {:induction false} ChildrenRowNamesBelow(n: Node, k: nat, fmt: Long -> string)
    requires WellFormedPaths(n) && k <= |Kids(n)|
    decreases n, 0, k
    ensures forall r :: r in ChildrenRows(n, k, fmt) ==> r.name == EmptyFolderText || DirPrefix(n.path) < r.name
  {
    if k > 0 {
      ChildrenRowNamesBelow(n, k - 1, fmt);
      var c := Kids(n)[k - 1];
      assert IsChildPath(n.path, c.path) && WellFormedPaths(c);
      if IsDirectory(c) {
        RowNamesBelow(c, fmt);
        forall r | r in Rows(c, fmt) && r.name != EmptyFolderText
          ensures DirPrefix(n.path) < r.name
        {
          ProperPrefixChain(DirPrefix(n.path), c.path, DirPrefix(c.path), r.name);
        }
      }
    }
  }

  lemma ProperPrefixChain(a: string, b: string, c: string, d: string)
    requires a < b && b <= c && c < d
    ensures a < d
  {
    assert d[..|a|] == c[..|a|] == b[..|a|];
  }

  /** The entry passed to the walk never appears as a row of its own. */
  lemma RootHasNoRow(n: Node, fmt: Long -> string)
    requires WellFormedPaths(n) && n.path != EmptyFolderText
    ensures forall r :: r in Rows(n, fmt) ==> r.name != n.path
  {
    RowNamesBelow(n, fmt);
  }

  /** Every position of the walk of a directory with entries lies in one child's block. */
  lemma {:induction false} BlockOf(n: Node, k: nat, q: nat, fmt: Long -> string) returns (i: nat)
    requires HasEntries(n) && k <= |Kids(n)| && q < Offset(n, k, fmt)
    ensures i < k && Offset(n, i, fmt) <= q < Offset(n, i + 1, fmt)
  {
    if q >= Offset(n, k - 1, fmt) {
      i := k - 1;
    } else {
      i := BlockOf(n, k - 1, q, fmt);
    }
  }

  /** A name below the directory prefix of one child of `parent` is not the path of
      any child of `parent`: a child's name holds no separator. */
  lemma BelowChildIsNoSibling(parent: string, x: string, y: string, name: string)
    requires IsChildPath(parent, x) && IsChildPath(parent, y) && DirPrefix(x) < name
    ensures name != y
  {
    var p := DirPrefix(parent);
    var a, b := x[|p|..], y[|p|..];
    assert x == p + a && y == p + b;
    assert a[|a| - 1] != Sep;
    assert DirPrefix(x) == p + a + [Sep];
    if |b| <= |a| {
      assert |name| > |y|;
    } else {
      assert name[|p| + |a|] == Sep;
      assert y[|p| + |a|] == b[|a|];
    }
  }

  /** A listed child's path and the paths below it are well formed. */
  lemma ChildPathFacts(n: Node, i: nat)
    requires WellFormedPaths(n) && i < |Kids(n)|
    ensures IsChildPath(n.path, Kids(n)[i].path) && WellFormedPaths(Kids(n)[i])
  {
  }

  /** A child path holds a separator, so it is never the sentinel text. */
  lemma ChildPathIsNotSentinel(parent: string, y: string)
    requires IsChildPath(parent, y)
    ensures y != EmptyFolderText
  {
    assert y[|DirPrefix(parent)| - 1] == Sep;
    assert Sep !in EmptyFolderText;
  }

  /** No row produced inside the block of one child is named after any sibling
      (nor after that child itself). */
  lemma SubtreeAvoidsSiblingPath(n: Node, i: nat, j: nat, r: Row, fmt: Long -> string)
    requires WellFormedPaths(n) && i < |Kids(n)| && j < |Kids(n)| && IsDirectory(Kids(n)[i])
    requires r in Rows(Kids(n)[i], fmt)
    ensures r.name != Kids(n)[j].path
  {
    var ci, cj := Kids(n)[i], Kids(n)[j];
    ChildPathFacts(n, i);
    ChildPathFacts(n, j);
    RowNamesBelow(ci, fmt);
    if r.name == EmptyFolderText {
      ChildPathIsNotSentinel(n.path, cj.path);
    } else {
      BelowChildIsNoSibling(n.path, ci.path, cj.path, r.name);
    }
  }

  /** A position inside the block of child `i` holds the matching row of that block. */
  lemma RowInBlock(n: Node, i: nat, q: nat, fmt: Long -> string)
    requires HasEntries(n) && i < |Kids(n)|
    requires Offset(n, i, fmt) <= q < Offset(n, i + 1, fmt)
    ensures q < |Rows(n, fmt)|
    ensures Rows(n, fmt)[q] == EntryRows(Kids(n)[i], fmt)[q - Offset(n, i, fmt)]
  {
    ChildBlock(n, i, fmt);
  }

  /** Siblings' paths differ, whichever comes first in the listing. */
  lemma SiblingPathsDistinct(n: Node, i: nat, j: nat)
    requires WellFormedPaths(n) && i < |Kids(n)| && j < |Kids(n)|
    ensures Kids(n)[i].path == Kids(n)[j].path ==> i == j
  {
    if i > j { assert Kids(n)[j].path != Kids(n)[i].path; }
  }

  /** Each listed child has exactly one row named after it: the first of its block. */
  lemma ChildRowUnique(n: Node, j: nat, q: nat, fmt: Long -> string)
    requires WellFormedPaths(n) && HasEntries(n) && j < |Kids(n)|
    requires q < |Rows(n, fmt)| && Rows(n, fmt)[q].name == Kids(n)[j].path
    ensures q == Offset(n, j, fmt)
  {
    var _ := LocateRow(n, Kids(n)[j], j, q, fmt);
  }

  // ---------------------------------------------------------------------------
  // Every entry below the walked one: exactly one row, its own
  // ---------------------------------------------------------------------------

  /** A name below the directory prefix of some entry holds a separator, so it is
      never the sentinel text. */
  lemma BelowPrefixIsNotSentinel(z: string, name: string)
    requires DirPrefix(z) < name
    ensures name != EmptyFolderText
  {
    assert name[|DirPrefix(z)| - 1] == Sep;
    assert Sep !in EmptyFolderText;
  }

  /** The path of a child of `parent` never lies below the directory prefix of any
      child of `parent`, itself included. */
  lemma ChildNotBelowSibling(parent: string, x: string, y: string)
    requires IsChildPath(parent, x) && IsChildPath(parent, y)
    ensures !(DirPrefix(y) < x)
  {
    var p := DirPrefix(parent);
    var a, b := x[|p|..], y[|p|..];
    assert x == p + a && y == p + b;
    assert y[|y| - 1] == b[|b| - 1] != Sep;
    assert DirPrefix(y) == p + b + [Sep];
    if |a| > |b| {
      assert x[|p| + |b|] == a[|b|] != Sep;
      assert DirPrefix(y)[|p| + |b|] == Sep;
    }
  }

  /** Two children of one directory whose directory prefixes both start the same name
      are the same child. */
  lemma SharedPrefixSameChild(parent: string, x: string, y: string, name: string)
    requires IsChildPath(parent, x) && IsChildPath(parent, y)
    requires DirPrefix(x) <= name && DirPrefix(y) <= name
    ensures x == y
  {
    var p := DirPrefix(parent);
    var a, b := x[|p|..], y[|p|..];
    assert x == p + a && y == p + b;
    assert x[|x| - 1] == a[|a| - 1] != Sep;
    assert y[|y| - 1] == b[|b| - 1] != Sep;
    assert DirPrefix(x) == p + a + [Sep];
    assert DirPrefix(y) == p + b + [Sep];
    forall m | |p| <= m < |p| + |a| ensures name[m] != Sep {
      assert name[m] == DirPrefix(x)[m] == a[m - |p|];
    }
    forall m | |p| <= m < |p| + |b| ensures name[m] != Sep {
      assert name[m] == DirPrefix(y)[m] == b[m - |p|];
    }
    assert name[|p| + |a|] == DirPrefix(x)[|p| + |a|] == Sep;
    assert name[|p| + |b|] == DirPrefix(y)[|p| + |b|] == Sep;
    assert |a| == |b|;
    assert a == name[|p|..|p| + |a|] == b;
  }

  /** With well-formed paths every entry strictly below `c` has a path below the
      directory prefix of `c`. */
  lemma {:induction false} DescendantPathBelow(c: Node, d: Node)
    requires WellFormedPaths(c) && IsDescendant(d, c)
    decreases c
    ensures DirPrefix(c.path) < d.path
  {
    var i :| 0 <= i < |Kids(c)| && InTree(d, Kids(c)[i]);
    var g := Kids(c)[i];
    ChildPathFacts(c, i);
    if d != g {
      DescendantPathBelow(g, d);
      ProperPrefixChain(DirPrefix(c.path), g.path, DirPrefix(g.path), d.path);
    }
  }

  /** A position inside the block of child `i`, after the child's own row, holds a
      row of the child's own walk, named after the sentinel text or a path below the
      child. */
  lemma BlockInnerRow(n: Node, i: nat, q: nat, fmt: Long -> string)
    requires WellFormedPaths(n) && HasEntries(n) && i < |Kids(n)|
    requires Offset(n, i, fmt) < q < Offset(n, i + 1, fmt)
    ensures q < |Rows(n, fmt)|
    ensures IsDirectory(Kids(n)[i])
    ensures q - Offset(n, i, fmt) - 1 < |Rows(Kids(n)[i], fmt)|
    ensures Rows(n, fmt)[q] == Rows(Kids(n)[i], fmt)[q - Offset(n, i, fmt) - 1]
    ensures Rows(n, fmt)[q].name == EmptyFolderText || DirPrefix(Kids(n)[i].path) < Rows(n, fmt)[q].name
  {
    var c := Kids(n)[i];
    var k := q - Offset(n, i, fmt);
    RowInBlock(n, i, q, fmt);
    ChildBlock(n, i, fmt);
    EntryRowsLength(c, fmt);
    assert IsDirectory(c);
    DirectoryEntryRows(c, fmt);
    assert EntryRows(c, fmt)[k] == Rows(c, fmt)[k - 1];
    ChildPathFacts(n, i);
    RowNamesBelow(c, fmt);
  }

  /** A name in the block of child `i` (the child's own path at the block's start,
      the sentinel text or a path below the child elsewhere) that is the path of an
      entry of child `j`'s subtree puts that entry in the same block: `i == j`, and
      the name starts the block exactly when the entry is the child itself. */
  lemma NameInChildBlock(n: Node, i: nat, j: nat, d: Node, atStart: bool)
    requires WellFormedPaths(n) && i < |Kids(n)| && j < |Kids(n)| && InTree(d, Kids(n)[j])
    requires atStart ==> d.path == Kids(n)[i].path
    requires !atStart ==> d.path == EmptyFolderText || DirPrefix(Kids(n)[i].path) < d.path
    ensures i == j && (atStart <==> d == Kids(n)[j])
  {
    var ci, cj := Kids(n)[i], Kids(n)[j];
    ChildPathFacts(n, i);
    ChildPathFacts(n, j);
    if atStart {
      ChildNotBelowSibling(n.path, ci.path, cj.path);
      if d != cj { DescendantPathBelow(cj, d); }
      SiblingPathsDistinct(n, i, j);
    } else {
      if d == cj {
        ChildPathIsNotSentinel(n.path, d.path);
      } else {
        DescendantPathBelow(cj, d);
        BelowPrefixIsNotSentinel(cj.path, d.path);
      }
      BelowChildIsNoSibling(n.path, ci.path, cj.path, d.path);
      DescendantPathBelow(cj, d);
      SharedPrefixSameChild(n.path, ci.path, cj.path, d.path);
      SiblingPathsDistinct(n, i, j);
    }
  }

  /** A row named after an entry of child `j`'s subtree lies in child `j`'s block: at
      its start exactly when the entry is child `j` itself, and then it is that
      entry's row; otherwise inside the child's own walk. */
  lemma LocateRow(n: Node, d: Node, j: nat, q: nat, fmt: Long -> string) returns (k: nat)
    requires WellFormedPaths(n) && j < |Kids(n)| && InTree(d, Kids(n)[j])
    requires q < |Rows(n, fmt)| && Rows(n, fmt)[q].name == d.path
    ensures Offset(n, j, fmt) <= q < Offset(n, j + 1, fmt)
    ensures q == Offset(n, j, fmt) <==> d == Kids(n)[j]
    ensures q == Offset(n, j, fmt) ==> Rows(n, fmt)[q] == EntryRow(d, fmt)
    ensures q > Offset(n, j, fmt) ==>
      && q == Offset(n, j, fmt) + 1 + k
      && IsDescendant(d, Kids(n)[j])
      && k < |Rows(Kids(n)[j], fmt)|
      && Rows(n, fmt)[q] == Rows(Kids(n)[j], fmt)[k]
  {
    ChildBlock(n, 0, fmt);
    var i := BlockOf(n, |Kids(n)|, q, fmt);
    var atStart := q == Offset(n, i, fmt);
    if atStart {
      ChildBlock(n, i, fmt);
      EntryRowFields(Kids(n)[i], fmt);
    } else {
      BlockInnerRow(n, i, q, fmt);
    }
    NameInChildBlock(n, i, j, d, atStart);
    k := if atStart then 0 else q - Offset(n, i, fmt) - 1;
  }

  /** Two rows named after the same entry below the walked one are the same row, and
      it is that entry's own row. */
  lemma {:induction false} DescendantRowAt(n: Node, d: Node, q: nat, q': nat, fmt: Long -> string)
    requires WellFormedPaths(n) && IsDescendant(d, n)
    requires q < |Rows(n, fmt)| && Rows(n, fmt)[q].name == d.path
    requires q' < |Rows(n, fmt)| && Rows(n, fmt)[q'].name == d.path
    decreases n
    ensures q == q' && Rows(n, fmt)[q] == EntryRow(d, fmt)
  {
    var j :| 0 <= j < |Kids(n)| && InTree(d, Kids(n)[j]);
    var k := LocateRow(n, d, j, q, fmt);
    var k' := LocateRow(n, d, j, q', fmt);
    if q > Offset(n, j, fmt) && q' > Offset(n, j, fmt) {
      var c := Kids(n)[j];
      ChildPathFacts(n, j);
      assert Rows(c, fmt)[k].name == d.path && Rows(c, fmt)[k'].name == d.path;
      DescendantRowAt(c, d, k, k', fmt);
    }
  }

  /** With well-formed paths every entry below the walked one, at any depth, has
      exactly one row named after it, and that row is its own. */
  lemma DescendantRowUnique(n: Node, d: Node, fmt: Long -> string)
    requires WellFormedPaths(n) && IsDescendant(d, n)
    ensures exists q ::
      && 0 <= q < |Rows(n, fmt)|
      && Rows(n, fmt)[q] == EntryRow(d, fmt)
      && (forall q' :: 0 <= q' < |Rows(n, fmt)| && Rows(n, fmt)[q'].name == d.path ==> q' == q)
  {
    RowsComplete(n, d, fmt);
    var q :| 0 <= q < |Rows(n, fmt)| && Rows(n, fmt)[q] == EntryRow(d, fmt);
    forall q' | 0 <= q' < |Rows(n, fmt)| && Rows(n, fmt)[q'].name == d.path
      ensures q' == q
    {
      DescendantRowAt(n, d, q, q', fmt);
    }
  }
}
