/** The decision logic of the desktop front end, without its widgets: the
    size-column comparator the proxy model sorts with, the way an analysis
    record becomes a table row, and the window's navigation state (current
    path, path history, which controls are enabled). */
module DiskAnalyzerGui {
  import FileSystem
  import DiskAnalyzer

  // ---------------------------------------------------------------------------
  // SizeSortFilterProxyModel.lessThan

  /** The value stored under `UserRole` in a size cell: a number, or
      anything else (no value at all, a string). */
  datatype SortKey = Number(value: int) | NotANumber

  /** The size column of the table (name, size, type, path). */
  const SizeColumn: int := 1

  /** `lessThan`: on the size column numbers compare with `<` and come before
      everything that is not a number; everywhere else, and between two
      non-numbers, the proxy model's own comparison (`defaultLess`) decides. */
  function LessThan(leftColumn: int, rightColumn: int, left: SortKey, right: SortKey, defaultLess: bool): bool
  {
    if leftColumn == SizeColumn && rightColumn == SizeColumn then
      if left.Number? && right.Number? then left.value < right.value
      else if left.Number? then true
      else if right.Number? then false
      else defaultLess
    else defaultLess
  }

  /** On numbers of the size column the comparison is a strict order. */
  lemma NumbersStrictlyOrdered(x: int, y: int, z: int, d1: bool, d2: bool, d3: bool)
    ensures !LessThan(SizeColumn, SizeColumn, Number(x), Number(x), d1)
    ensures LessThan(SizeColumn, SizeColumn, Number(x), Number(y), d1) &&
            LessThan(SizeColumn, SizeColumn, Number(y), Number(z), d2) ==>
            LessThan(SizeColumn, SizeColumn, Number(x), Number(z), d3)
    ensures LessThan(SizeColumn, SizeColumn, Number(x), Number(y), d1) ==>
            !LessThan(SizeColumn, SizeColumn, Number(y), Number(x), d2)
  {
  }

  /** A number is below every non-number, whatever the default comparison says,
      and a non-number is never below a number. */
  lemma NumbersBeforeNonNumbers(x: int, d: bool)
    ensures LessThan(SizeColumn, SizeColumn, Number(x), NotANumber, d)
    ensures !LessThan(SizeColumn, SizeColumn, NotANumber, Number(x), d)
  {
  }

  // ---------------------------------------------------------------------------
  // update_treeview: one row per record

  /** The text of a size cell: `format_size(size)` or "N/A". */
  datatype SizeText = Formatted(bytes: nat) | NotAvailable

  /** One row of the source model: display name, size cell (text and sort
      key), type and full path. */
  datatype Row = Row(displayName: string, sizeText: SizeText, sortKey: SortKey, typeText: string, path: string)

  const InaccessibleMark: string := "(无法访问)"
  const FolderType: string := "文件夹"
  const FileType: string := "文件"

  /** `item.get('error', False)` read as a condition: present and not empty. */
  predicate HasError(item: DiskAnalyzer.Item)
  {
    item.error.Some? && item.error.value != ""
  }

  /** The row built for one record. */
  function RowFor(item: DiskAnalyzer.Item): (row: Row)
    ensures row.path == item.path
    ensures row.typeText == (if item.isDir then FolderType else FileType)
    ensures HasError(item) ==>
              row.sortKey == Number(-1) && row.sizeText == NotAvailable &&
              row.displayName == item.name + " " + InaccessibleMark
    ensures !HasError(item) ==>
              row.sortKey == Number(item.size) && row.sizeText == Formatted(item.size) &&
              row.displayName == item.name + " "
  {
    var hasError := HasError(item);
    Row(
      item.name + " " + (if hasError then InaccessibleMark else ""),
      if hasError then NotAvailable else Formatted(item.size),
      Number(if hasError then -1 else item.size),
      if item.isDir then FolderType else FileType,
      item.path)
  }

  /** The rows of a result, in the order the records come. */
  function Rows(items: seq<DiskAnalyzer.Item>): (rows: seq<Row>)
    ensures |rows| == |items|
    ensures forall i :: 0 <= i < |items| ==> rows[i] == RowFor(items[i])
  {
    if items == [] then [] else Rows(items[..|items| - 1]) + [RowFor(items[|items| - 1])]
  }

  /** Every record the analyzer produces shows as an error row exactly when it
      carries an error: its error texts are never empty. */
  lemma AnalyzerErrorsShow(directory: string, entry: FileSystem.Entry)
    ensures HasError(DiskAnalyzer.RecordFor(directory, entry)) <==> DiskAnalyzer.RecordFor(directory, entry).error.Some?
    ensures (RowFor(DiskAnalyzer.RecordFor(directory, entry)).sortKey == Number(-1)) <==>
            DiskAnalyzer.RecordFor(directory, entry).error.Some?
  {
  }

  /** On the size column an error row sorts below every readable row, and a
      readable row never sorts below an error row. */
  lemma ErrorRowsBelowReadable(bad: DiskAnalyzer.Item, good: DiskAnalyzer.Item, d: bool)
    requires HasError(bad) && !HasError(good)
    ensures LessThan(SizeColumn, SizeColumn, RowFor(bad).sortKey, RowFor(good).sortKey, d)
    ensures !LessThan(SizeColumn, SizeColumn, RowFor(good).sortKey, RowFor(bad).sortKey, d)
  {
  }

  /** Python's `sub in s` on strings. */
  predicate Contains(s: string, sub: string)
    decreases |s|
  {
    |sub| <= |s| && (s[..|sub|] == sub || Contains(s[1..], sub))
  }

  lemma {:induction false} ContainsSuffix(s: string, sub: string)
    ensures Contains(s + sub, sub)
    decreases |s|
  {
    if s != [] {
      assert (s + sub)[1..] == s[1..] + sub;
      ContainsSuffix(s[1..], sub);
    }
  }

  /** The name of an error row carries the mark that double-clicking looks for. */
  lemma ErrorRowIsMarked(item: DiskAnalyzer.Item)
    requires HasError(item)
    ensures Contains(RowFor(item).displayName, InaccessibleMark)
  {
    ContainsSuffix(item.name + " ", InaccessibleMark);
  }

  // ---------------------------------------------------------------------------
  // DiskAnalyzerApp: navigation state

  /** Whether double-clicking row `sourceRow` of `table` enters a folder:
      the row exists, is a folder row, its name does not carry the
      inaccessible mark, and its path is not empty and still a directory. */
  predicate EntersFolder(table: seq<Row>, sourceRow: int, isDir: string -> bool)
  {
    && 0 <= sourceRow < |table|
    && table[sourceRow].typeText == FolderType
    && !Contains(table[sourceRow].displayName, InaccessibleMark)
    && table[sourceRow].path != ""
    && isDir(table[sourceRow].path)
  }

  /** Appending a blank neither makes nor breaks an occurrence of a text
      that does not end in a blank. */
  lemma {:induction false} ContainsWithBlank(s: string, sub: string)
    requires sub != [] && sub[|sub| - 1] != ' '
    ensures Contains(s + " ", sub) <==> Contains(s, sub)
    decreases |s|
  {
    if s == [] {
      assert (s + " ")[1..] == [];
    } else {
      assert (s + " ")[1..] == s[1..] + " ";
      ContainsWithBlank(s[1..], sub);
      if |sub| <= |s| {
        assert (s + " ")[..|sub|] == s[..|sub|];
      }
    }
  }

  /** Double-clicking the row of a folder the analyzer reported enters it
      exactly when the folder's own name does not contain the inaccessible
      mark and its path is still a directory: the analyzer never marks a
      folder, so only a name that happens to contain the mark is refused. */
  lemma FolderRowEntered(directory: string, entry: FileSystem.Entry, isDir: string -> bool)
    requires entry.node.Directory?
    ensures EntersFolder([RowFor(DiskAnalyzer.RecordFor(directory, entry))], 0, isDir) <==>
              && !Contains(entry.name, InaccessibleMark)
              && FileSystem.JoinPath(directory, entry.name) != ""
              && isDir(FileSystem.JoinPath(directory, entry.name))
  {
    ContainsWithBlank(entry.name, InaccessibleMark);
  }

  /** The first entry of the drive list, which stands for "no drive". */
  const DrivePlaceholder: string := "请选择驱动器…"

  /** The window's state as the navigation handlers see it. `normPath` is
      `os.path.normpath`; `isDir`, passed to each handler, is
      `os.path.isdir` at the time of the call. `analysisRequests` records,
      in order, the paths for which an analysis thread was started. */
  class AnalyzerWindow {
    const normPath: string -> string
    var currentPath: string
    var pathHistory: seq<string>
    var pathText: string
    var rows: seq<Row>
    var driveSelectEnabled: bool
    var refreshEnabled: bool
    var upEnabled: bool
    var analysisRequests: seq<string>

    /** `normPath` is idempotent, as `os.path.normpath` is, and the current
        path is empty or already normalised. */
    ghost predicate Valid()
      reads this
    {
      && (forall p :: normPath(normPath(p)) == normPath(p))
      && (currentPath == "" || normPath(currentPath) == currentPath)
    }

    /** What `navigate_to(path)` does to everything but the history and the
        up button. A path that is not a directory after normalisation leaves
        the state as it was, except that the path field shows the last history
        entry again; a directory becomes the current path and the path field,
        the table is cleared, the drive list and refresh button are disabled
        and an analysis of it is started. */
    twostate predicate NavigatedTo(path: string, isDir: string -> bool)
      reads this
    {
      var p := normPath(path);
      if isDir(p) then
        && currentPath == p && pathText == p && rows == []
        && !driveSelectEnabled && !refreshEnabled
        && analysisRequests == old(analysisRequests) + [p]
      else
        && currentPath == old(currentPath) && rows == old(rows)
        && pathText == (if pathHistory == [] then "" else pathHistory[|pathHistory| - 1])
        && driveSelectEnabled == old(driveSelectEnabled) && refreshEnabled == old(refreshEnabled)
        && analysisRequests == old(analysisRequests)
    }

    constructor (normPath: string -> string)
      requires forall p :: normPath(normPath(p)) == normPath(p)
      ensures Valid() && this.normPath == normPath
      ensures currentPath == "" && pathHistory == [] && pathText == "" && rows == []
      ensures driveSelectEnabled && !refreshEnabled && !upEnabled
      ensures analysisRequests == []
    {
      this.normPath := normPath;
      currentPath := "";
      pathHistory := [];
      pathText := "";
      rows := [];
      driveSelectEnabled := true;
      refreshEnabled := false;
      upEnabled := false;
      analysisRequests := [];
    }

    /** `set_controls_enabled`: the drive list and refresh button follow
        `enabled`; the up button needs, besides, more than one history entry. */
    method SetControlsEnabled(enabled: bool)
      requires Valid()
      modifies this
      ensures Valid()
      ensures driveSelectEnabled == enabled && refreshEnabled == enabled
      ensures upEnabled == (enabled && |pathHistory| > 1)
      ensures currentPath == old(currentPath) && pathHistory == old(pathHistory)
      ensures pathText == old(pathText) && rows == old(rows)
      ensures analysisRequests == old(analysisRequests)
    {
      driveSelectEnabled := enabled;
      refreshEnabled := enabled;
      var isRoot := |pathHistory| <= 1;
      upEnabled := enabled && !isRoot;
    }

    /** `navigate_to`: see `NavigatedTo`; the history is left alone and the
        up button is disabled together with the other controls. */
    method NavigateTo(path: string, isDir: string -> bool)
      requires Valid()
      modifies this
      ensures Valid()
      ensures NavigatedTo(path, isDir)
      ensures pathHistory == old(pathHistory)
      ensures upEnabled == (old(upEnabled) && !isDir(normPath(path)))
    {
      var p := normPath(path);
      if !isDir(p) {
        if pathHistory != [] {
          pathText := pathHistory[|pathHistory| - 1];
        } else {
          pathText := "";
        }
        return;
      }
      currentPath := p;
      pathText := p;
      rows := [];
      SetControlsEnabled(false);
      analysisRequests := analysisRequests + [p];
    }

    /** `on_drive_selected`: the placeholder (index 0) clears the current
        path, the history, the path field and the table; a drive resets the
        history to just that drive and navigates to it; an empty selection
        changes nothing. The enabled state of the controls is left as it was
        in the first case. */
    method OnDriveSelected(index: int, selectedDrive: string, isDir: string -> bool)
      requires Valid()
      modifies this
      ensures Valid()
      ensures index == 0 || selectedDrive == DrivePlaceholder ==>
                && currentPath == "" && pathHistory == [] && pathText == "" && rows == []
                && driveSelectEnabled == old(driveSelectEnabled) && refreshEnabled == old(refreshEnabled)
                && upEnabled == old(upEnabled) && analysisRequests == old(analysisRequests)
      ensures index != 0 && selectedDrive != DrivePlaceholder && selectedDrive != "" ==>
                && pathHistory == [selectedDrive]
                && NavigatedTo(selectedDrive, isDir)
                && upEnabled == (old(upEnabled) && !isDir(normPath(selectedDrive)))
      ensures index != 0 && selectedDrive != DrivePlaceholder && selectedDrive == "" ==>
                unchanged(this)
    {
      if index == 0 || selectedDrive == DrivePlaceholder {
        currentPath := "";
        pathHistory := [];
        pathText := "";
        rows := [];
        return;
      }
      if selectedDrive != "" {
        pathHistory := [selectedDrive];
        NavigateTo(selectedDrive, isDir);
      }
    }

    /** `update_treeview`: a result for a path that is no longer current is
        dropped; otherwise the table holds exactly one row per record. */
    method UpdateTreeview(items: seq<DiskAnalyzer.Item>, path: string)
      requires Valid()
      modifies this
      ensures Valid()
      ensures path != old(currentPath) ==> unchanged(this)
      ensures path == old(currentPath) ==> rows == Rows(items)
      ensures currentPath == old(currentPath) && pathHistory == old(pathHistory)
      ensures pathText == old(pathText) && analysisRequests == old(analysisRequests)
      ensures driveSelectEnabled == old(driveSelectEnabled) && refreshEnabled == old(refreshEnabled)
      ensures upEnabled == old(upEnabled)
    {
      if path != currentPath {
        return;
      }
      rows := [];
      var i := 0;
      while i < |items|
        invariant 0 <= i <= |items|
        invariant rows == Rows(items[..i])
        invariant currentPath == old(currentPath) && pathHistory == old(pathHistory)
        invariant pathText == old(pathText) && analysisRequests == old(analysisRequests)
        invariant driveSelectEnabled == old(driveSelectEnabled) && refreshEnabled == old(refreshEnabled)
        invariant upEnabled == old(upEnabled)
      {
        assert items[..i + 1][..i] == items[..i];
        rows := rows + [RowFor(items[i])];
        i := i + 1;
      }
      assert items[..i] == items;
    }

    /** `show_error`: an error for the current path turns the controls back
        on; one for another path changes nothing. */
    method ShowError(message: string, path: string)
      requires Valid()
      modifies this
      ensures Valid()
      ensures path != old(currentPath) ==> unchanged(this)
      ensures path == old(currentPath) ==>
                driveSelectEnabled && refreshEnabled && upEnabled == (|pathHistory| > 1)
      ensures currentPath == old(currentPath) && pathHistory == old(pathHistory)
      ensures pathText == old(pathText) && rows == old(rows)
      ensures analysisRequests == old(analysisRequests)
    {
      if path == currentPath {
        SetControlsEnabled(true);
      }
    }

    /** `on_item_double_click`: an entered folder's path joins the history and
        is navigated to; anything else (an invalid row, a file, a folder
        marked inaccessible or no longer there) changes nothing. */
    method OnItemDoubleClick(sourceRow: int, isDir: string -> bool)
      requires Valid()
      modifies this
      ensures Valid()
      ensures EntersFolder(old(rows), sourceRow, isDir) ==>
                && pathHistory == old(pathHistory) + [old(rows)[sourceRow].path]
                && NavigatedTo(old(rows)[sourceRow].path, isDir)
                && upEnabled == (old(upEnabled) && !isDir(normPath(old(rows)[sourceRow].path)))
      ensures !EntersFolder(old(rows), sourceRow, isDir) ==> unchanged(this)
    {
      if !(0 <= sourceRow < |rows|) {
        return;
      }
      var row := rows[sourceRow];
      if row.typeText == FolderType {
        if Contains(row.displayName, InaccessibleMark) {
          return;
        }
        if row.path != "" && isDir(row.path) {
          pathHistory := pathHistory + [row.path];
          NavigateTo(row.path, isDir);
        }
      }
    }

    /** `go_up`: with more than one history entry the last is dropped and the
        new last one is navigated to; otherwise nothing moves. Either way the
        up button is then enabled exactly when more than one entry is left,
        whether or not the other controls are enabled, and the history is
        never emptied. */
    method GoUp(isDir: string -> bool)
      requires Valid()
      modifies this
      ensures Valid()
      ensures |old(pathHistory)| > 1 ==>
                && pathHistory == old(pathHistory)[..|old(pathHistory)| - 1]
                && NavigatedTo(pathHistory[|pathHistory| - 1], isDir)
      ensures |old(pathHistory)| <= 1 ==>
                && pathHistory == old(pathHistory) && currentPath == old(currentPath)
                && pathText == old(pathText) && rows == old(rows)
                && driveSelectEnabled == old(driveSelectEnabled) && refreshEnabled == old(refreshEnabled)
                && analysisRequests == old(analysisRequests)
      ensures upEnabled == (|pathHistory| > 1)
      ensures |pathHistory| >= 1 <==> |old(pathHistory)| >= 1
    {
      if |pathHistory| > 1 {
        pathHistory := pathHistory[..|pathHistory| - 1];
        var parentPath := pathHistory[|pathHistory| - 1];
        NavigateTo(parentPath, isDir);
      }
      upEnabled := |pathHistory| > 1;
    }

    /** `refresh_view`: the current directory, if any, is analysed again. The
        current path never changes: it is already normalised. */
    method RefreshView(isDir: string -> bool)
      requires Valid()
      modifies this
      ensures Valid()
      ensures currentPath == old(currentPath) && pathHistory == old(pathHistory)
      ensures old(currentPath) != "" ==>
                NavigatedTo(old(currentPath), isDir) && upEnabled == (old(upEnabled) && !isDir(old(currentPath)))
      ensures old(currentPath) != "" && isDir(old(currentPath)) ==>
                analysisRequests == old(analysisRequests) + [old(currentPath)]
      ensures old(currentPath) == "" ==> unchanged(this)
    {
      if currentPath != "" {
        NavigateTo(currentPath, isDir);
      }
    }
  }
}
