# FileWorker directory lister, modelled in Dafny

FileWorker is a desktop utility that lists everything below a directory the user
picks: one table row per entry, with the entry's absolute path, its size ("N/A" for
a directory, whole kilobytes followed by " KB" for a file), its type ("Directory" or
"File") and its last-modified date. This project models the class that does the
work, `DirectoryLister`, and proves what it puts in the table.

- `file_tree.dfy` (module `FileTree`): the file system as a finite tree. A `Node` is
  a `File` (path, length in bytes, modification time), a `Dir` (path, the listed
  children in the file system's own order, modification time) or an
  `UnreadableDir`, whose listing is Java's `null`. `Find` stands for the existence
  check `new File(path).exists()` on an absolute path as the directory chooser gives
  it: the path is compared as given with the entries' paths, and `Find` is proved to
  find exactly the paths present in the tree.
  `WellFormedPaths` says that paths are nested the way `getAbsolutePath()` nests
  them: a child's path is its directory's path, a `/` separator and a name.
- `size_string.dfy` (module `SizeString`): `getSizeString`, meaning `size / 1024`
  in Java `long` arithmetic, which truncates toward zero, then `" KB"`. It also
  holds a parser for the strings this produces, used to prove a round trip.
- `enumeration.dfy` (module `Enumeration`): `Rows(n, fmt)` is the pure
  specification of everything `enumerateDirectory(n)` appends. The lemmas beside it
  prove:
  - the row count, and the pre-order block structure;
  - completeness and soundness against the tree: the walk holds the row of every
    entry below the walked one and the sentinel of every walked entry with nothing
    listed, and no other row;
  - with well-formed paths, that every entry below the walked one has exactly one
    row, its own.
- `directory_lister.dfy` (module `Lister`): the imperative part.
  - `ListingSink` is the GUI's listing table, a `seq<Row>` with `Reset` (`resetGUI`)
    and `UpdateListing` (`updateListing`).
  - `DirectoryLister` has the `gui` and `basePath` fields and the three methods.
  - `EnumerateDirectory` is the recursive `for` loop of the source. Its
    postcondition says the table ends as its old contents followed by `Rows(f)`.
- `seq_facts.dfy` (module `SeqFacts`): three facts about sequences of any element
  type, used to keep the row proofs small.

The date column is `formattedDateString(lastModified)`. The model does not
interpret it: it is a function `Long -> string` given to the lister's constructor
and passed to `Rows` as `fmt`.

Two behaviours of the code are easy to misread, and the model follows the code:
- A directory with N files and M subdirectories does not always yield N+M rows.
  Each empty subdirectory yields two rows: its own row and then the sentinel row
  from the recursive call (FileWorker/src/DirectoryLister.java:97-99 and 104-105).
  N+M holds if and only if no child is a directory (`FlatDirectoryCount`); in general the
  count is `RowCount`.
- An existing regular file given as the path is not an error. `listFiles()` returns
  null for it, so the listing is the single sentinel row dated by the file
  (`EmptyListingRows`).

## Model

| member | source | states |
|---|---|---|
| FileTree.Find | FileWorker/src/DirectoryLister.java:71-72 | the existence check finds an entry exactly when some entry of the tree has that path, and what it finds has that path and lies in the tree |
| FileTree.Listing | FileWorker/src/DirectoryLister.java:94 | `listFiles()` is non-null only for a directory |
| FileTree.HasEntries | FileWorker/src/DirectoryLister.java:95 | the branch that loops over the listing is taken only for a directory |
| FileTree.Kids | FileWorker/src/DirectoryLister.java:94-95 | the listing is non-empty exactly when the loop branch (`!= null && length > 0`) is taken |
| SizeString.Decimal | FileWorker/src/DirectoryLister.java:121 | the numeral of a count is all digits, non-empty, and starts with '0' only for zero |
| SizeString.LongToString | FileWorker/src/DirectoryLister.java:121 | the `"" + long` text is never empty and starts with a minus sign exactly for a negative value |
| SizeString.ParseDecimalOfDecimal | FileWorker/src/DirectoryLister.java:121 | reading the numeral back gives the count it was written from |
| SizeString.DecimalInjective | FileWorker/src/DirectoryLister.java:121 | different counts never share a numeral |
| SizeString.ParseLongOfLongToString | FileWorker/src/DirectoryLister.java:121 | the `"" + long` text of any value, negative ones included, reads back as that value |
| SizeString.KbSize | FileWorker/src/DirectoryLister.java:119 | `size / 1024` never overstates the size: for a non-negative size the kilobytes times 1024 lie between 0 and the size, for a negative one between the size and 0 |
| SizeString.KbSizeTruncates | FileWorker/src/DirectoryLister.java:119 | `size / 1024` is the floor of the quotient for non-negative sizes and truncates toward zero for negative ones |
| SizeString.KbSizeMonotone | FileWorker/src/DirectoryLister.java:119 | a larger size never shows a smaller kilobyte count |
| SizeString.SizeStringShape | FileWorker/src/DirectoryLister.java:117-122 | `getSizeString` always ends in " KB" and starts with a minus sign exactly for a size of -1024 or less |
| SizeString.SizeStringRoundTrip | FileWorker/src/DirectoryLister.java:117-122 | every size string ends in " KB" and reads back as exactly the truncated kilobyte count |
| SizeString.SizeStringsEqualIff | FileWorker/src/DirectoryLister.java:117-122 | two sizes show the same string if and only if they fall in the same truncated kilobyte |
| SizeString.SizeStringOfNonNegative | FileWorker/src/DirectoryLister.java:110-122 | for a non-negative size the string is the decimal numeral of `size / 1024` (floor) followed by " KB" |
| SizeString.SizeStringBelowOneKb | FileWorker/src/DirectoryLister.java:119-121 | any size strictly between -1024 and 1024 shows as "0 KB" |
| SizeString.SizeStringExample | FileWorker/src/DirectoryLister.java:111-112 | 123456 bytes show as "120 KB" and 1023 bytes as "0 KB" |
| Enumeration.SentinelRowFields | FileWorker/src/DirectoryLister.java:105 | the sentinel row is named "This is an empty folder", dated by the entry whose listing was empty, and has neither the directory nor the file kind |
| Enumeration.EntryRowFields | FileWorker/src/DirectoryLister.java:97-102 | an entry's row is named after and dated by that entry, and has the "Directory" kind and the "N/A" size exactly when `isDirectory()` holds |
| Enumeration.Rows | FileWorker/src/DirectoryLister.java:92-107 | the walk of any entry appends at least one row |
| Enumeration.ChildrenRows | FileWorker/src/DirectoryLister.java:96-103 | the first k turns of the loop append at least k rows |
| Enumeration.EntryRows | FileWorker/src/DirectoryLister.java:97-102 | every turn of the loop appends at least one row |
| Enumeration.RowsCount | FileWorker/src/DirectoryLister.java:94-106 | the number of rows is `RowCount`: 1 for an entry with nothing listed, otherwise the sum over children of 1 plus, for a directory, its own count |
| Enumeration.ChildrenRowsCount | FileWorker/src/DirectoryLister.java:96-103 | the rows of the first k turns number `ChildrenCount(k)` |
| Enumeration.RowCountPositive | FileWorker/src/DirectoryLister.java:94-106 | every existing entry yields at least one row |
| Enumeration.FlatDirectoryCount | FileWorker/src/DirectoryLister.java:96-102 | a directory with entries yields exactly one row per child if and only if no listed child is a directory |
| Enumeration.ChildrenCountAbove | FileWorker/src/DirectoryLister.java:97-99 | a child directory among the first k children makes their count at least k + 1 |
| Enumeration.EntryRowsLength | FileWorker/src/DirectoryLister.java:97-102 | a turn appends one row for a file, and one plus the subtree's rows for a directory |
| Enumeration.DirectoryEntryRows | FileWorker/src/DirectoryLister.java:97-99 | a directory child appends its row ("N/A", "Directory", its own date) followed by its whole walk |
| Enumeration.FileEntryRows | FileWorker/src/DirectoryLister.java:100-102 | a file child appends exactly its row (size string, "File", its own date) |
| Enumeration.EmptyListingRows | FileWorker/src/DirectoryLister.java:94-106 | an entry with an empty or null listing (a file, or an empty or unreadable directory) yields exactly the sentinel row ("This is an empty folder", "", "", its own date) |
| Enumeration.EmptySubdirectoryRows | FileWorker/src/DirectoryLister.java:97-99 | an empty subdirectory contributes exactly its own row followed by the sentinel dated by it |
| Enumeration.ChildrenRowsPrefix | FileWorker/src/DirectoryLister.java:96-103 | the rows of earlier loop turns are never changed by later ones; they stay a prefix |
| Enumeration.ChildBlock | FileWorker/src/DirectoryLister.java:96-103 | the walk is cut into consecutive blocks, one per listed child in listing order; child j's block is its own row followed by its whole walk, before the next sibling's row (pre-order) |
| Enumeration.RowInBlock | FileWorker/src/DirectoryLister.java:96-103 | a position inside child i's block holds the matching row of that child's block |
| Enumeration.BlockOf | FileWorker/src/DirectoryLister.java:96-103 | every position of the walk lies in the block of some listed child |
| Enumeration.SentinelComplete | FileWorker/src/DirectoryLister.java:104-105 | every walked entry with nothing listed, the walked one or a directory at any depth below it, has its sentinel row in the walk |
| Enumeration.RowsComplete | FileWorker/src/DirectoryLister.java:92-107 | every entry below the walked one has its row in the walk |
| Enumeration.RowsSound | FileWorker/src/DirectoryLister.java:92-107 | every row of the walk is the row of an entry below the walked one, or the sentinel of the walked entry or of a directory below it with nothing listed |
| Enumeration.RowsClassified | FileWorker/src/DirectoryLister.java:98-105 | every row is a directory row ("N/A", "Directory"), a file row (a valid size string, "File") or the sentinel (empty size and type) |
| Enumeration.RowNamesBelow | FileWorker/src/DirectoryLister.java:92-107 | with well-formed paths every row names the sentinel text or a path strictly below the walked directory |
| Enumeration.RootHasNoRow | FileWorker/src/DirectoryLister.java:92-107 | the entry passed to the walk never gets a row of its own |
| Enumeration.BelowChildIsNoSibling | FileWorker/src/DirectoryLister.java:96-99 | a path below one child of a directory is never the path of a child of that directory |
| Enumeration.SubtreeAvoidsSiblingPath | FileWorker/src/DirectoryLister.java:97-99 | no row inside a child directory's walk is named after that child or any sibling |
| Enumeration.ChildRowUnique | FileWorker/src/DirectoryLister.java:96-102 | with well-formed paths each listed child has exactly one row named after it, the first of its block |
| Enumeration.ChildNotBelowSibling | FileWorker/src/DirectoryLister.java:96-98 | the path of a listed child never lies below the directory prefix of a child of the same directory |
| Enumeration.SharedPrefixSameChild | FileWorker/src/DirectoryLister.java:96-99 | two children of one directory whose directory prefixes both start the same path are the same child |
| Enumeration.DescendantPathBelow | FileWorker/src/DirectoryLister.java:92-107 | with well-formed paths every entry strictly below a directory has a path below that directory's prefix |
| Enumeration.BlockInnerRow | FileWorker/src/DirectoryLister.java:97-99 | a position of child i's block after its own row holds a row of that child's walk, named after the sentinel or a path below the child |
| Enumeration.NameInChildBlock | FileWorker/src/DirectoryLister.java:96-103 | a name found in child i's block that is the path of an entry of child j's subtree forces i = j, and it is at the block's start exactly when the entry is child j |
| Enumeration.LocateRow | FileWorker/src/DirectoryLister.java:96-103 | a row named after an entry of child j's subtree lies in child j's block: its first row, which is then that entry's row, exactly when the entry is child j, otherwise a row of child j's walk |
| Enumeration.DescendantRowAt | FileWorker/src/DirectoryLister.java:92-107 | with well-formed paths two rows named after the same entry below the walked one are the same row, and it is that entry's own row |
| Enumeration.DescendantRowUnique | FileWorker/src/DirectoryLister.java:92-107 | with well-formed paths every entry below the walked one, at any depth, has exactly one row named after it, and that row is its own |
| Lister.ErrorMessage | FileWorker/src/DirectoryLister.java:76-80 | an error dialog is shown exactly when the path was not listed |
| Lister.ListingSink.Reset | FileWorker/src/DirectoryLister.java:49 | `resetGUI` leaves the table empty |
| Lister.ListingSink.UpdateListing | FileWorker/src/DirectoryLister.java:98 | `updateListing` appends exactly one row with the four given columns and changes nothing else |
| Lister.DirectoryLister.constructor | FileWorker/src/DirectoryLister.java:33-36 | the lister keeps the GUI it was given; no base path is selected yet |
| Lister.DirectoryLister.SelectDirectory | FileWorker/src/DirectoryLister.java:46-59 | the table is cleared and the chosen path becomes the base path. A cancelled choice reports cancellation and an unknown path reports an invalid filename, both with an empty table; otherwise the table holds exactly the walk of the chosen entry |
| Lister.DirectoryLister.ShowDirectoryContents | FileWorker/src/DirectoryLister.java:68-84 | a null path reports cancellation and empties the table; a path not in the tree reports an invalid filename and empties the table; an existing path appends its walk after the rows already there |
| Lister.DirectoryLister.EnumerateDirectory | FileWorker/src/DirectoryLister.java:92-107 | the loop only appends: the table ends as its old rows followed by exactly `Rows(f)` |

## Left out

- `formattedDateString` (`SimpleDateFormat` with the local time zone) is library behaviour. It is a function parameter `Long -> string`, and only the fact that each row is dated by its own entry's `lastModified()` is proved.
- The `GUI` class is not part of this model. Only the listing table's reset and append effects are modelled. `getAbsoluteDirectoryPath` becomes the `chosen` argument. `setAddressLabelText` and the `JOptionPane` dialogs are not modelled; the dialog shown is returned as an `Outcome`, and `ErrorMessage` gives its text.
- The `java.io.File` calls (`exists`, `listFiles`, `isDirectory`, `length`, `lastModified`, `getAbsolutePath`) are replaced by the tree. Their values are fields of `Node`, and the listing order is taken as given and shown to be preserved.
- Symbolic-link cycles and stack overflow on deep trees are not modelled. `isDirectory()` follows links and the JVM stack is bounded, so both can happen in the program. The model's tree is finite and its recursion has no depth limit.
- `java.io.File` does not throw on an I/O failure. `exists()` and `isDirectory()` return false, `length()` and `lastModified()` return 0, and `listFiles()` returns null, which the check at FileWorker/src/DirectoryLister.java:95 handles and `UnreadableDir` models. The other values are ones a `Node` can hold. Only the `SecurityException` raised under an installed security manager is not modelled.
- The `NullPointerException` handler is modelled only for a null path. For a non-null `gui`, which the model's `ListingSink` type assumes, nothing else in the walk can throw it. A null `gui` makes `updateListing` throw inside the `try`, and `resetGUI` throw again from the handler; that case is not modelled.
- The separator is fixed to `/`. `WellFormedPaths`, which the path lemmas require (`RowNamesBelow` and everything after it under "Row names" and "Every entry below the walked one" in `enumeration.dfy`), is a property of real file systems that the code relies on but does not check.
- FileTree.Find: the path is compared as given with the entries' paths. `java.io.File` normalises a path before `exists()`: it drops a trailing separator, collapses doubled separators and resolves a relative path against the working directory, and `new File("").exists()` is false. None of this is modelled, so `"/a/"` is not found even when `/a` is in the tree, and `""` is found when an entry's path is `""`. The lister's caller passes the chooser's absolute path, which is already in normal form.
- FileTree.Find: a path that occurs several times in the tree resolves to its first occurrence in pre-order. A real file system has no such duplicates; `WellFormedPaths` rules them out among siblings.
