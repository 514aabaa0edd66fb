/** `DirectoryLister` and the part of its GUI it drives: the listing table, which it
    clears (`resetGUI`) and appends rows to (`updateListing`). The file system is the
    tree `fs`; the directory chooser's answer is the `chosen` argument, `None` when
    the user cancelled (Java's `null`). */
module Lister {

  import opened FileTree
  import opened SizeString
  import opened Enumeration
  import SeqFacts

  /** The dialog a call ends with, if any. */
  datatype Outcome = Listed | InvalidFilename | Cancelled

  const InvalidFilenameMessage := "The specified filename is invalid!"
  const CancelledMessage :=
    "You cancelled the operation.\nTo close the window please use the \"X\" in the upper right corner."

  /** The text of the error dialog shown for an outcome, `None` when none is shown. */
  function ErrorMessage(o: Outcome): (m: Option<string>)
    ensures m.None? <==> o == Listed
  {
    match o
    case Listed => None
    case InvalidFilename => Some(InvalidFilenameMessage)
    case Cancelled => Some(CancelledMessage)
  }

  /** The listing table of the GUI. */
  class ListingSink {
    var rows: seq<Row>

    constructor ()
      ensures rows == []
    {
      rows := [];
    }

    /** `resetGUI`: clears the results of any previous traversal. */
    method Reset()
      modifies this
      ensures rows == []
    {
      rows := [];
    }

    /** `updateListing`: adds one row at the end of the table. */
    method UpdateListing(name: string, size: string, kind: string, modified: string)
      modifies this
      ensures rows == old(rows) + [Row(name, size, kind, modified)]
    {
      rows := rows + [Row(name, size, kind, modified)];
    }
  }

  class DirectoryLister {
    /** GUI used to display results. */
    const gui: ListingSink
    /** `formattedDateString`. */
    const formatDate: Long -> string
    /** Base path of the directory to be traversed; `None` until one is selected. */
    var basePath: Option<string>

    constructor (gui: ListingSink, formatDate: Long -> string)
      ensures this.gui == gui && this.formatDate == formatDate && basePath == None
    {
      this.gui := gui;
      this.formatDate := formatDate;
      basePath := None;
    }

    /** Clears the table, takes the chooser's answer as the base path and shows it. */
    method SelectDirectory(fs: Node, chosen: Option<string>) returns (outcome: Outcome)
      modifies this, gui
      ensures basePath == chosen
      ensures chosen.None? ==> outcome == Cancelled && gui.rows == []
      ensures chosen.Some? && Find(fs, chosen.value).None? ==>
                outcome == InvalidFilename && gui.rows == []
      ensures chosen.Some? && Find(fs, chosen.value).Some? ==>
                outcome == Listed && gui.rows == Rows(Find(fs, chosen.value).value, formatDate)
    {
      gui.Reset();
      basePath := chosen;
      outcome := ShowDirectoryContents(fs, basePath);
    }

    /** Walks `path` when it exists; otherwise reports the error and clears the table. */
    method ShowDirectoryContents(fs: Node, path: Option<string>) returns (outcome: Outcome)
      modifies gui
      ensures path.None? ==> outcome == Cancelled && gui.rows == []
      ensures path.Some? && Find(fs, path.value).None? ==>
                outcome == InvalidFilename && gui.rows == []
      ensures path.Some? && Find(fs, path.value).Some? ==>
                outcome == Listed && gui.rows == old(gui.rows) + Rows(Find(fs, path.value).value, formatDate)
    {
      match path
      case None =>
        outcome := Cancelled;
        gui.Reset();
      case Some(p) =>
        var fileObj := Find(fs, p);
        if fileObj.Some? {
          EnumerateDirectory(fileObj.value);
          outcome := Listed;
        } else {
          outcome := InvalidFilename;
          gui.Reset();
        }
    }

    /** Appends the rows of a depth-first walk below `f`: for each listed entry its
        own row and, for a directory, the rows of its own walk; the sentinel row
        when the listing is empty or `null`. */
    method EnumerateDirectory(f: Node)
      modifies gui
      decreases f
      ensures gui.rows == old(gui.rows) + Rows(f, formatDate)
    {
      var filesAndDirectories := Listing(f);
      if filesAndDirectories.Some? && |filesAndDirectories.value| > 0 {
        var entries := filesAndDirectories.value;
        assert entries == Kids(f);
        for i := 0 to |entries|
          invariant gui.rows == old(gui.rows) + ChildrenRows(f, i, formatDate)
        {
          var currentFile := entries[i];
          ghost var before := gui.rows;
          if IsDirectory(currentFile) {
            gui.UpdateListing(currentFile.path, DirectorySize, DirectoryKind, formatDate(currentFile.mtime));
            EnumerateDirectory(currentFile);
            DirectoryEntryRows(currentFile, formatDate);
          } else {
            gui.UpdateListing(currentFile.path, GetSizeString(currentFile.length), FileKind,
                              formatDate(currentFile.mtime));
            FileEntryRows(currentFile, formatDate);
          }
          assert gui.rows == before + EntryRows(currentFile, formatDate);
          assert ChildrenRows(f, i + 1, formatDate) == ChildrenRows(f, i, formatDate) + EntryRows(currentFile, formatDate);
          SeqFacts.AppendAssociative(old(gui.rows), ChildrenRows(f, i, formatDate), EntryRows(currentFile, formatDate));
        }
      } else {
        gui.UpdateListing(EmptyFolderText, "", "", formatDate(f.mtime));
      }
    }
  }
}
