/** The scanning engine: `get_folder_size`, which adds up everything below a
    directory and absorbs every error on the way, and `analyze_directory`,
    which describes each immediate child of a directory and returns the
    descriptions largest first. */
module DiskAnalyzer {
  import opened Wrappers
  import opened FileSystem
  import StableSort

  // ---------------------------------------------------------------------------
  // get_folder_size

  /** The size `get_folder_size` reports for a path that names `folder`:
      the entries the listing yields are added up; a listing that fails
      (at once or part way) keeps what was added before the failure; a path
      that is not a directory cannot be listed and reports 0. */
  function FolderSize(folder: Node): nat
    decreases folder, 0
  {
    match folder
    case Directory(entries, _) => EntriesSize(entries)
    case _ => 0
  }

  /** The total over a run of entries, added in listing order. */
  function EntriesSize(entries: seq<Entry>): nat
    decreases entries
  {
    if entries == [] then 0
    else EntriesSize(entries[..|entries| - 1]) + Contribution(entries[|entries| - 1].node)
  }

  /** What one entry adds to its directory's total: a readable file its size,
      a subdirectory its own total, anything else (a file whose `stat` fails,
      an entry that is neither file nor directory) nothing. */
  function Contribution(node: Node): nat
    decreases node, 1
  {
    match node
    case File(stat) => if stat.Ok? then stat.value else 0
    case Directory(_, _) => FolderSize(node)
    case Special(_) => 0
  }

  /** The accumulator loop of `get_folder_size`: one pass over the listing,
      a recursive call per subdirectory, and no error ever leaves it. */
  method GetFolderSize(folder: Node) returns (totalSize: nat)
    ensures totalSize == FolderSize(folder)
    decreases folder
  {
    totalSize := 0;
    match folder {
      case Directory(entries, _) =>
        var i := 0;
        while i < |entries|
          invariant 0 <= i <= |entries|
          invariant totalSize == EntriesSize(entries[..i])
        {
          var entry := entries[i];
          assert entries[..i + 1][..i] == entries[..i];
          match entry.node {
            case File(stat) =>
              if stat.Ok? {
                totalSize := totalSize + stat.value;
              }
            case Directory(_, _) =>
              var subtotal := GetFolderSize(entry.node);
              totalSize := totalSize + subtotal;
            case Special(_) =>
          }
          i := i + 1;
        }
        assert entries[..i] == entries;
      case _ =>
    }
  }

  /** The sizes of the readable regular files below `folder`, in the order
      a depth-first walk of the listings meets them. */
  function FilesBelow(folder: Node): seq<nat>
    decreases folder, 0
  {
    match folder
    case Directory(entries, _) => FilesOfEntries(entries)
    case _ => []
  }

  function FilesOfEntries(entries: seq<Entry>): seq<nat>
    decreases entries
  {
    if entries == [] then []
    else FilesOfEntries(entries[..|entries| - 1]) + FilesOfEntry(entries[|entries| - 1].node)
  }

  function FilesOfEntry(node: Node): seq<nat>
    decreases node, 1
  {
    match node
    case File(stat) => if stat.Ok? then [stat.value] else []
    case Directory(_, _) => FilesBelow(node)
    case Special(_) => []
  }

  function Sum(s: seq<nat>): nat
  {
    if s == [] then 0 else Sum(s[..|s| - 1]) + s[|s| - 1]
  }

  lemma {:induction false} SumAppend(s: seq<nat>, t: seq<nat>)
    ensures Sum(s + t) == Sum(s) + Sum(t)
    decreases |t|
  {
    if t == [] {
      assert s + t == s;
    } else {
      assert (s + t)[..|s + t| - 1] == s + t[..|t| - 1];
      SumAppend(s, t[..|t| - 1]);
    }
  }

  /** The total of a directory is the sum of the sizes of all readable files
      anywhere below it: nothing is counted twice and nothing readable is
      missed, however deep the tree. */
  lemma {:induction false} FolderSizeIsSumOfFiles(folder: Node)
    ensures FolderSize(folder) == Sum(FilesBelow(folder))
    decreases folder, 0
  {
    match folder
    case Directory(entries, _) => EntriesSizeIsSumOfFiles(entries);
    case _ =>
  }

  lemma {:induction false} EntriesSizeIsSumOfFiles(entries: seq<Entry>)
    ensures EntriesSize(entries) == Sum(FilesOfEntries(entries))
    decreases entries
  {
    if entries != [] {
      var last := entries[|entries| - 1].node;
      EntriesSizeIsSumOfFiles(entries[..|entries| - 1]);
      SumAppend(FilesOfEntries(entries[..|entries| - 1]), FilesOfEntry(last));
      match last
      case Directory(_, _) => FolderSizeIsSumOfFiles(last);
      case _ =>
    }
  }

  /** A listing that fails part way keeps the total of what it yielded
      before failing; one that fails at once totals 0. */
  lemma ListingFailureKeepsPrefix(entries: seq<Entry>, e: OsError)
    ensures FolderSize(Directory(entries, Some(e))) == FolderSize(Directory(entries, None))
    ensures FolderSize(Directory([], Some(e))) == 0
  {
  }

  /** Each child adds at most the directory's total, so the total never goes
      down when a child grows. */
  lemma {:induction false} ChildAtMostTotal(entries: seq<Entry>, listingError: Option<OsError>, i: int)
    requires 0 <= i < |entries|
    ensures Contribution(entries[i].node) <= FolderSize(Directory(entries, listingError))
  {
    EntryAtMostEntriesSize(entries, i);
  }

  lemma {:induction false} EntryAtMostEntriesSize(entries: seq<Entry>, i: int)
    requires 0 <= i < |entries|
    ensures Contribution(entries[i].node) <= EntriesSize(entries)
    decreases entries
  {
    if i < |entries| - 1 {
      EntryAtMostEntriesSize(entries[..|entries| - 1], i);
    }
  }

  /** Partial-failure isolation: replacing one child (say, by one that can no
      longer be read) changes the total by exactly the difference of that
      child's contributions; its siblings count as before. */
  lemma {:induction false} ReplaceChild(entries: seq<Entry>, i: int, replacement: Entry)
    requires 0 <= i < |entries|
    ensures EntriesSize(entries[i := replacement]) + Contribution(entries[i].node)
         == EntriesSize(entries) + Contribution(replacement.node)
    decreases entries
  {
    var n := |entries|;
    var updated := entries[i := replacement];
    if i < n - 1 {
      assert updated[..n - 1] == entries[..n - 1][i := replacement];
      ReplaceChild(entries[..n - 1], i, replacement);
    } else {
      assert updated[..n - 1] == entries[..n - 1];
    }
  }

  // ---------------------------------------------------------------------------
  // analyze_directory

  /** One record of the result: `error` is present only for an entry whose
      size could not be read. */
  datatype Item = Item(name: string, size: nat, isDir: bool, path: string, error: Option<string>)

  /** The exception `analyze_directory` raises when the directory itself
      cannot be scanned: a `PermissionError` or another `OSError`. */
  datatype ScanError = ScanError(isPermissionError: bool, message: string)

  /** The `error` text of a record whose `stat` failed with `e`. */
  function StatErrorText(e: OsError): (text: string)
    ensures text != ""
  {
    if e.PermissionDenied? then "权限不足" else "OS错误: " + Message(e)
  }

  /** The exception re-raised when listing the scanned directory fails with `e`. */
  function ScanFailure(directory: string, e: OsError): (error: ScanError)
    ensures error.isPermissionError <==> e.PermissionDenied?
  {
    if e.PermissionDenied? then ScanError(true, "无法扫描目录 " + directory + ": 权限不足")
    else ScanError(false, "无法扫描目录 " + directory + ": " + Message(e))
  }

  /** The record `analyze_directory` appends for one entry of `directory`. */
  function RecordFor(directory: string, entry: Entry): (item: Item)
    ensures item.name == entry.name && item.path == JoinPath(directory, entry.name)
    ensures item.isDir <==> entry.node.Directory?
    ensures item.isDir ==> item.error == None && item.size == FolderSize(entry.node)
    ensures !item.isDir ==> (item.error == None <==> entry.node.stat.Ok?)
    ensures !item.isDir && entry.node.stat.Ok? ==> item.size == entry.node.stat.value
    ensures item.error != None ==> item.size == 0 && item.error.value != ""
  {
    var path := JoinPath(directory, entry.name);
    match entry.node
    case Directory(_, _) => Item(entry.name, FolderSize(entry.node), true, path, None)
    case _ =>
      match entry.node.stat
      case Ok(size) => Item(entry.name, size, false, path, None)
      case Err(e) => Item(entry.name, 0, false, path, Some(StatErrorText(e)))
  }

  /** The records collected for a listing, before sorting: exactly one per
      entry, in listing order. */
  function Records(directory: string, entries: seq<Entry>): (items: seq<Item>)
    ensures |items| == |entries|
    ensures forall i {:trigger items[i]} :: 0 <= i < |entries| ==> items[i] == RecordFor(directory, entries[i])
  {
    if entries == [] then []
    else Records(directory, entries[..|entries| - 1]) + [RecordFor(directory, entries[|entries| - 1])]
  }

  /** The sort key of `items.sort(key=lambda x: x["size"], reverse=True)`. */
  function SizeKey(item: Item): int
  {
    item.size
  }

  /** Whatever order a stable sort puts the records in, the result holds one
      record per listed entry: none is dropped and none is made up. */
  lemma SortedRecordsCoverEntries(directory: string, entries: seq<Entry>, sorted: seq<Item>)
    requires StableSort.IsStableDescendingSort(Records(directory, entries), sorted, SizeKey)
    ensures |sorted| == |entries|
    ensures forall i :: 0 <= i < |entries| ==> RecordFor(directory, entries[i]) in sorted
    ensures forall item :: item in sorted ==>
              exists i :: 0 <= i < |entries| && item == RecordFor(directory, entries[i])
  {
    var records := Records(directory, entries);
    assert |multiset(sorted)| == |multiset(records)|;
    forall item | item in sorted
      ensures exists i :: 0 <= i < |entries| && item == RecordFor(directory, entries[i])
    {
      assert item in multiset(records);
      var k :| 0 <= k < |records| && records[k] == item;
    }
    forall i | 0 <= i < |entries|
      ensures RecordFor(directory, entries[i]) in sorted
    {
      assert records[i] in multiset(sorted);
    }
  }

  /** The loop of `analyze_directory` that appends one record per entry. */
  method CollectRecords(directory: string, entries: seq<Entry>) returns (items: seq<Item>)
    ensures items == Records(directory, entries)
  {
    items := [];
    var i := 0;
    while i < |entries|
      invariant 0 <= i <= |entries|
      invariant items == Records(directory, entries[..i])
    {
      var entry := entries[i];
      var path := JoinPath(directory, entry.name);
      var item: Item;
      if entry.node.Directory? {
        var size := GetFolderSize(entry.node);
        item := Item(entry.name, size, true, path, None);
      } else {
        match entry.node.stat {
          case Ok(size) => item := Item(entry.name, size, false, path, None);
          case Err(e) => item := Item(entry.name, 0, false, path, Some(StatErrorText(e)));
        }
      }
      assert item == RecordFor(directory, entry);
      assert entries[..i + 1][..i] == entries[..i];
      assert Records(directory, entries[..i + 1]) == Records(directory, entries[..i]) + [RecordFor(directory, entry)];
      items := items + [item];
      i := i + 1;
    }
    assert entries[..i] == entries;
  }

  /** `analyze_directory`: a record per listed entry, sorted by size, largest
      first, ties in listing order; if the directory itself cannot be listed
      (it is not a directory, cannot be opened, or its listing fails part
      way) the call fails instead of returning what it has. */
  method AnalyzeDirectory(directory: string, folder: Node) returns (result: Result<seq<Item>, ScanError>)
    ensures result.Ok? <==> folder.Directory? && folder.listingError == None
    ensures !folder.Directory? ==> result == Err(ScanFailure(directory, NotADirectory))
    ensures folder.Directory? && folder.listingError != None ==>
              result == Err(ScanFailure(directory, folder.listingError.value))
    ensures result.Ok? ==>
              StableSort.IsStableDescendingSort(Records(directory, folder.entries), result.value, SizeKey)
    ensures result.Ok? ==> |result.value| == |folder.entries|
    ensures result.Ok? ==> forall i :: 0 <= i < |folder.entries| ==>
              RecordFor(directory, folder.entries[i]) in result.value
    ensures result.Ok? ==> forall item :: item in result.value ==>
              exists i :: 0 <= i < |folder.entries| && item == RecordFor(directory, folder.entries[i])
  {
    if !folder.Directory? {
      return Err(ScanFailure(directory, NotADirectory));
    }
    var items := CollectRecords(directory, folder.entries);
    if folder.listingError != None {
      return Err(ScanFailure(directory, folder.listingError.value));
    }
    var a := new Item[|items|](k requires 0 <= k < |items| => items[k]);
    assert a[..] == items;
    StableSort.SortDescending(a, SizeKey);
    result := Ok(a[..]);
    SortedRecordsCoverEntries(directory, folder.entries, a[..]);
  }

  /** Two analyses of the same unchanged directory return the same list,
      ties included: the sort leaves no freedom. */
  lemma AnalysisIsDeterministic(directory: string, entries: seq<Entry>, first: seq<Item>, second: seq<Item>)
    requires StableSort.IsStableDescendingSort(Records(directory, entries), first, SizeKey)
    requires StableSort.IsStableDescendingSort(Records(directory, entries), second, SizeKey)
    ensures first == second
  {
    StableSort.StableSortUnique(Records(directory, entries), first, second, SizeKey);
  }

  /** Sizes 300, 100, 300, 0 in listing order come out as 300, 300, 100, 0,
      with the two 300-byte records in their listing order. */
  lemma TiesKeepListingOrder(a: Item, b: Item, c: Item, d: Item, sorted: seq<Item>)
    requires a.size == 300 && b.size == 100 && c.size == 300 && d.size == 0
    requires StableSort.IsStableDescendingSort([a, b, c, d], sorted, SizeKey)
    ensures sorted == [a, c, b, d]
  {
    var input, expected := [a, b, c, d], [a, c, b, d];
    StableSort.SwapNeighbours(input, 2, SizeKey);
    assert input[1 := input[2]][2 := input[1]] == expected;
    StableSort.StableSortUnique(input, sorted, expected, SizeKey);
  }

  /** The directory of the example below. */
  function ExampleRoot(): Node
  {
    Directory([Entry("a.txt", File(Ok(10))),
               Entry("b.txt", File(Ok(20))),
               Entry("sub", Directory([Entry("c.txt", File(Ok(5)))], None))], None)
  }

  lemma ExampleRecords()
    ensures Records("root", ExampleRoot().entries) ==
              [Item("a.txt", 10, false, "root\\a.txt", None),
               Item("b.txt", 20, false, "root\\b.txt", None),
               Item("sub", 5, true, "root\\sub", None)]
  {
    var entries := ExampleRoot().entries;
    var sub := entries[2].node;
    assert EntriesSize(sub.entries[..0]) == 0;
    assert FolderSize(sub) == 5;
    assert JoinPath("root", "a.txt") == "root\\a.txt";
    assert JoinPath("root", "b.txt") == "root\\b.txt";
    assert JoinPath("root", "sub") == "root\\sub";
  }

  /** A directory holding `a.txt` (10 bytes), `b.txt` (20 bytes) and `sub`,
      which holds `c.txt` (5 bytes), is reported as b.txt, a.txt, sub. */
  lemma ExampleAnalysis(sorted: seq<Item>)
    requires StableSort.IsStableDescendingSort(Records("root", ExampleRoot().entries), sorted, SizeKey)
    ensures sorted == [Item("b.txt", 20, false, "root\\b.txt", None),
                       Item("a.txt", 10, false, "root\\a.txt", None),
                       Item("sub", 5, true, "root\\sub", None)]
  {
    ExampleRecords();
    SecondLargestFirst(Item("a.txt", 10, false, "root\\a.txt", None),
                       Item("b.txt", 20, false, "root\\b.txt", None),
                       Item("sub", 5, true, "root\\sub", None), sorted);
  }

  /** Three records whose second is the largest and whose first is at least
      the third come out second, first, third. */
  lemma SecondLargestFirst(x: Item, y: Item, z: Item, sorted: seq<Item>)
    requires x.size < y.size && z.size <= x.size
    requires StableSort.IsStableDescendingSort([x, y, z], sorted, SizeKey)
    ensures sorted == [y, x, z]
  {
    StableSort.SwapNeighbours([x, y, z], 1, SizeKey);
    assert [x, y, z][0 := y][1 := x] == [y, x, z];
    StableSort.StableSortUnique([x, y, z], sorted, [y, x, z], SizeKey);
  }
}
