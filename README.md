# disk_analyzer in Dafny

disk_analyzer is a small desktop tool that shows which files and folders take up space on a local drive. It has two parts:

- **The scanning engine** (`disk_analyzer.py`). `get_folder_size` adds up the sizes of all files below a directory and absorbs every error it meets. `analyze_directory` lists one directory and returns one record per immediate child: name, size, folder or file, full path, and an error text when the size could not be read. The records come largest first. If the directory itself cannot be listed, the call fails.
- **The PyQt front end** (`disk_analyzer_gui.py`). It provides a comparator for the size column, turns each record into a table row, and lets you navigate: pick a drive, double-click a folder, go up, refresh. Each analysis runs on a worker thread.

The model has five modules:

- `Wrappers` — `Option` and `Result`.
- `FileSystem` — the filesystem as a finite tree of `Node`s with `Entry` names.
  - An entry is a `File`, a `Directory` or a `Special` object.
  - A directory's listing is the run of entries `os.scandir` yields, and possibly the error raised after them.
  - A file's `stat` either gives a size or fails with an `OsError`.
  - `JoinPath` is `DirEntry.path`.
- `StableSort` — Python's `list.sort(key=…, reverse=True)`, written as an in-place insertion sort on an `array`.
  - It is proved to return a *stable descending sort*: sorted by key, a permutation of the input, and with every group of equal keys kept in input order.
  - It is also proved that only one sequence has these properties. So the result is exactly what CPython's Timsort returns.
- `DiskAnalyzer` — the two engine functions.
  - `FolderSize` is the recursive specification of `get_folder_size`, and `GetFolderSize` is its accumulator loop, proved equal to it.
  - `RecordFor`/`Records` give the records of `analyze_directory`, and `AnalyzeDirectory` sorts them in place.
- `DiskAnalyzerGui` — the front end's logic.
  - `LessThan` is the comparator, and `RowFor`/`Rows` is the mapping from record to row.
  - The class `AnalyzerWindow` holds the window's navigation state: current path, path history, path field, table rows, which controls are enabled, and the analysis threads started so far, in order (`analysisRequests`).
  - Each handler is a method with a `modifies this` contract stating its whole new state.

`os.path.normpath` is the window's `normPath` field. It must be idempotent. `os.path.isdir`, which may give different answers at different times, is a parameter `isDir` of each handler.

The model follows the code as written:

- `get_folder_size` returns a bare number and never an error flag. So a folder record never carries an error, even when nothing below it could be read (`RecordFor` proves `isDir ==> error == None`).
- The top-level directory's listing can fail part way through. In that case `analyze_directory` raises, and the records collected so far are lost. A failure while listing a subdirectory only stops that subdirectory's total.
- Each analysis runs to completion on its own thread; a result for a path that is no longer current is dropped when it arrives (`UpdateTreeview`, `ShowError`).

## Model

| member | source | states |
|---|---|---|
| FileSystem.JoinPath | disk_analyzer.py:73 | The entry path starts with the scanned path and ends with the entry name. Between them there is one backslash exactly when the scanned path is non-empty and does not end in `\`, `/` or `:`, and nothing otherwise. |
| FileSystem.JoinPathInjective | disk_analyzer.py:71-73 | Two entries of one directory with different names get different paths. |
| DiskAnalyzer.FolderSize | disk_analyzer.py:38-65 | The recursive definition of `get_folder_size`, written as its body: a directory totals its listed entries, anything else totals 0. Its properties are stated by `GetFolderSize`, `FolderSizeIsSumOfFiles`, `ListingFailureKeepsPrefix`, `ChildAtMostTotal` and `ReplaceChild`. |
| DiskAnalyzer.EntriesSize | disk_analyzer.py:42-57 | The running total over the listed entries, in listing order, written as its body; see `EntriesSizeIsSumOfFiles`. |
| DiskAnalyzer.Contribution | disk_analyzer.py:43-57 | What one entry adds, written as its body: a file its `stat` size, or 0 when `stat` fails; a subdirectory its own total; an entry that is neither, 0. See `FolderSizeIsSumOfFiles`. |
| DiskAnalyzer.GetFolderSize | disk_analyzer.py:38-65 | The accumulator loop, which recurses into each subdirectory, returns exactly `FolderSize` of the folder. |
| DiskAnalyzer.FolderSizeIsSumOfFiles | disk_analyzer.py:38-65 | A folder's size is the sum of the sizes of every readable regular file reachable through successful listings. Unreadable files, special entries and unlistable parts add nothing. |
| DiskAnalyzer.EntriesSizeIsSumOfFiles | disk_analyzer.py:42-57 | The loop's running total over a run of entries equals the sum of the readable files below those entries. |
| DiskAnalyzer.ListingFailureKeepsPrefix | disk_analyzer.py:41-65 | A listing that fails part way keeps the total of the entries yielded before the failure. A directory that cannot be opened totals 0. |
| DiskAnalyzer.ChildAtMostTotal | disk_analyzer.py:42-57 | No child contributes more than its directory's total. |
| DiskAnalyzer.ReplaceChild | disk_analyzer.py:42-57 | Replacing one child, for example by an unreadable one, changes the total by exactly the difference of that child's contributions. Its siblings still count. |
| DiskAnalyzer.StatErrorText | disk_analyzer.py:82-87 | A record's error text is never empty. |
| DiskAnalyzer.ScanFailure | disk_analyzer.py:89-96 | The re-raised exception is a permission error exactly when the listing failed for lack of permission. |
| DiskAnalyzer.RecordFor | disk_analyzer.py:71-87 | The record for an entry has the entry's name and joined path, and `isDir` exactly for directories. A directory gets its folder size and no error. A file or special entry gets its `stat` size, or else size 0 and a non-empty error text. |
| DiskAnalyzer.Records | disk_analyzer.py:69-87 | There is exactly one record per listed entry, and record i belongs to entry i. |
| DiskAnalyzer.CollectRecords | disk_analyzer.py:69-81 | The collecting loop appends exactly `Records` of the listing. |
| DiskAnalyzer.SizeKey | disk_analyzer.py:99 | The sort key `x["size"]`, written as its body; the sort it drives is stated by `AnalyzeDirectory`. |
| DiskAnalyzer.SortedRecordsCoverEntries | disk_analyzer.py:71-100 | After sorting there are as many records as entries. Every entry's record is present, and nothing else is. |
| DiskAnalyzer.AnalyzeDirectory | disk_analyzer.py:67-100 | The call succeeds exactly when the path is a directory whose listing completes. Otherwise it fails with the permission or OS exception for that failure. The result is the stable descending sort by size of the records, and it covers every entry exactly once. |
| DiskAnalyzer.AnalysisIsDeterministic | disk_analyzer.py:99-100 | Two analyses of the same unchanged listing return the same list, ties included. |
| DiskAnalyzer.TiesKeepListingOrder | disk_analyzer.py:99 | Sizes 300, 100, 300, 0 come out 300, 300, 100, 0, and the two 300-byte records keep their listing order. |
| DiskAnalyzer.ExampleAnalysis | disk_analyzer.py:67-100 | A directory holding a.txt (10), b.txt (20) and sub (holding c.txt, 5) is reported as b.txt 20, a.txt 10, sub 5, with paths `root\…`. |
| StableSort.SortDescending | disk_analyzer.py:99 | The in-place sort leaves the array sorted by key, largest first, as a permutation of its old contents, with equal keys in their old order. |
| StableSort.StableSortUnique | disk_analyzer.py:99 | Any two stable descending sorts of the same input are equal, so the postcondition pins down Python's result. |
| StableSort.SwapNeighbours | disk_analyzer.py:99 | Exchanging two neighbours with different keys keeps both the multiset and the order among equal keys. |
| DiskAnalyzerGui.LessThan | disk_analyzer_gui.py:20-37 | `lessThan`, written as its body, with `super().lessThan` as the parameter `defaultLess`. Its properties are stated by `NumbersStrictlyOrdered`, `NumbersBeforeNonNumbers` and `ErrorRowsBelowReadable`. |
| DiskAnalyzerGui.NumbersStrictlyOrdered | disk_analyzer_gui.py:22-28 | On two numeric size keys the comparator is `<`. It is irreflexive, transitive and asymmetric, whatever the default comparison does. |
| DiskAnalyzerGui.NumbersBeforeNonNumbers | disk_analyzer_gui.py:29-32 | On the size column a number sorts before a non-number, and a non-number never sorts before a number. |
| DiskAnalyzerGui.HasError | disk_analyzer_gui.py:301-305 | The truth value of `item.get('error', False)`: an error text is present and not empty, written as its body; `AnalyzerErrorsShow` states that for analyzer records it is just "an error is present". |
| DiskAnalyzerGui.RowFor | disk_analyzer_gui.py:297-326 | A row with an error gets size text "N/A", sort key -1 and the name followed by " (无法访问)". One without an error gets the formatted size, the size as its sort key, and the name followed by a blank. The type is 文件夹 for folders and 文件 otherwise. The path is copied. |
| DiskAnalyzerGui.Rows | disk_analyzer_gui.py:296-326 | There is one row per record, in record order. |
| DiskAnalyzerGui.AnalyzerErrorsShow | disk_analyzer_gui.py:301-315 | A record from the analyzer shows as an error row, with sort key -1, exactly when it carries an error. |
| DiskAnalyzerGui.ErrorRowsBelowReadable | disk_analyzer_gui.py:20-32 | On the size column every error row sorts below every readable row, and never the other way round. |
| DiskAnalyzerGui.ErrorRowIsMarked | disk_analyzer_gui.py:305 | An error row's display name contains the mark that double-clicking checks for. |
| DiskAnalyzerGui.EntersFolder | disk_analyzer_gui.py:341-363 | The condition chain of `on_item_double_click`, written as its body: a valid row of type 文件夹 whose name lacks "(无法访问)" and whose path is non-empty and a directory. `OnItemDoubleClick` and `FolderRowEntered` state what it decides. |
| DiskAnalyzerGui.FolderRowEntered | disk_analyzer_gui.py:359-363 | Double-clicking the row of a folder record enters it exactly when the folder's own name does not contain "(无法访问)" and its path is non-empty and still a directory. |
| DiskAnalyzerGui.AnalyzerWindow.constructor | disk_analyzer_gui.py:64-98 | The window starts with no current path, an empty history, an empty path field and table, the drive list enabled, and the refresh and up buttons disabled. |
| DiskAnalyzerGui.AnalyzerWindow.SetControlsEnabled | disk_analyzer_gui.py:278-282 | The drive list and refresh button follow `enabled`. The up button is enabled only if `enabled` holds and there is more than one history entry. Nothing else changes. |
| DiskAnalyzerGui.AnalyzerWindow.NavigatedTo | disk_analyzer_gui.py:244-276 | The effect of `navigate_to` on every field but the history and the up button, as a two-state predicate; `NavigateTo` ensures it, and the other handlers reuse it. |
| DiskAnalyzerGui.AnalyzerWindow.NavigateTo | disk_analyzer_gui.py:244-276 | After normalising, a non-directory only resets the path field to the last history entry, or to empty. A directory becomes the current path and the path field; the table is cleared, the controls are disabled and one analysis of it is started. The history is never touched. |
| DiskAnalyzerGui.AnalyzerWindow.OnDriveSelected | disk_analyzer_gui.py:231-242 | The placeholder clears the path, history, path field and table and leaves the controls as they were. A drive resets the history to that drive and navigates to it. An empty selection changes nothing. |
| DiskAnalyzerGui.AnalyzerWindow.UpdateTreeview | disk_analyzer_gui.py:284-326 | A result for a path that is no longer current changes nothing. Otherwise the table becomes exactly `Rows(items)` and nothing else changes. |
| DiskAnalyzerGui.AnalyzerWindow.ShowError | disk_analyzer_gui.py:334-338 | An error for the current path re-enables the controls, as `SetControlsEnabled(true)` does. An error for any other path changes nothing. |
| DiskAnalyzerGui.AnalyzerWindow.OnItemDoubleClick | disk_analyzer_gui.py:340-367 | If `EntersFolder` holds, the row's path is appended to the history and navigated to. Anything else changes nothing: an invalid row, a file, a marked folder, an empty path or a vanished folder. |
| DiskAnalyzerGui.AnalyzerWindow.GoUp | disk_analyzer_gui.py:369-374 | With more than one history entry, the last entry is dropped and the new last one is navigated to; otherwise nothing moves. Afterwards the up button is enabled exactly when more than one entry remains, and the history is empty only if it was empty before. |
| DiskAnalyzerGui.AnalyzerWindow.RefreshView | disk_analyzer_gui.py:376-378 | A non-empty current path is navigated to again and stays the current path: one more analysis of it starts if it is still a directory. An empty current path changes nothing. |

## Left out

- `get_available_drives` and `populate_drives` are left out: they probe drive letters through the operating system and fill a widget. A selected drive is a parameter of `OnDriveSelected`.
- `format_size` is left out: it formats floating point numbers. A size cell's text is the value `Formatted(bytes)`.
- Widgets, layouts, icons, styles, status-bar texts and message boxes are not modelled. A message box shown for an invalid path or a marked folder appears only as "nothing changes".
- `AnalysisWorker` and `QThread` are not modelled as threads. Starting an analysis appends its path to `analysisRequests`. The outcome arrives through `UpdateTreeview` or `ShowError`. The thread-finished hook (disk_analyzer_gui.py:274) is `SetControlsEnabled(true)`, and its asynchronous timing is not modelled.
- Symbolic links and link cycles cannot be expressed, because the tree is finite. For the same reason the `RecursionError` a very deep tree would raise is not modelled.
- `is_file()`/`is_dir()` themselves raising is not modelled. Each entry has a fixed kind.
- The text of an operating-system error (`str(e)`) is a fixed stand-in per error kind (`FileSystem.Message`).
- Sizes are integers. A float under `UserRole` (disk_analyzer_gui.py:27) is not modelled.
- `item.get` defaults (disk_analyzer_gui.py:297-301) are not modelled. Every record the analyzer produces has all its keys.
- The proxy model's own sort and `mapToSource` are not modelled. `OnItemDoubleClick` receives the source row directly, and `LessThan` is the comparator the proxy would use.
- StableSort.SortDescending: it is an insertion sort, not Timsort. `StableSortUnique` proves that both return the same list. Only the running time differs, and the model does not address it.
- DiskAnalyzer.GetFolderSize: it takes the already-listed tree, not a path. Reading the filesystem at call time, and a tree changing during the scan, are not modelled.

## Behaviour worth knowing

These follow from the code as written and are modelled as such:

- The display name of a row without an error ends in a blank (`f"{name} {''}"`).
- A folder whose own name contains "(无法访问)" cannot be entered by double-click, although the analyzer never marks folders (`FolderRowEntered`).
- `go_up` sets the up button from the history length alone. So during an analysis it can enable the up button while the other controls stay disabled.
- Selecting the placeholder clears the view but leaves the enabled state of the controls as it was.
