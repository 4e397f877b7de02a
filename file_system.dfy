/** The part of the operating system the scanner looks at: what `os.scandir`
    yields for a directory, what `DirEntry.stat` reports for an entry, and how
    an entry's path is formed. The tree is finite, so symbolic-link cycles
    cannot be expressed. */
module FileSystem {
  import opened Wrappers

  /** The `OSError` family as the scanner distinguishes it: `PermissionError`
      is caught separately from every other `OSError`. */
  datatype OsError =
    | PermissionDenied
    | NotADirectory
    | OsFailure(message: string)

  /** `str(e)` of the exception, as it appears in the messages built from it. */
  function Message(e: OsError): string
  {
    match e
    case PermissionDenied => "Permission denied"
    case NotADirectory => "The directory name is invalid"
    case OsFailure(m) => m
  }

  /** One filesystem object.
      - `File`: `is_file()` holds; `stat` is the outcome of `stat().st_size`.
      - `Directory`: `is_dir()` holds; `entries` are the entries `os.scandir`
        yields, in its order, and `listingError` is the error the listing raises
        after them (`Directory([], Some(e))` is a directory that cannot be
        opened at all; `None` is a complete listing).
      - `Special`: neither (a device, a pipe, a broken link); `stat` as for a file. */
  datatype Node =
    | File(stat: Result<nat, OsError>)
    | Directory(entries: seq<Entry>, listingError: Option<OsError>)
    | Special(stat: Result<nat, OsError>)

  /** A `DirEntry`: the final path segment and the object it names. */
  datatype Entry = Entry(name: string, node: Node)

  predicate IsSeparator(c: char)
  {
    c == '\\' || c == '/' || c == ':'
  }

  /** `DirEntry.path`: the scanned path joined with the entry's name. As on
      Windows, a backslash is put between them unless the scanned path is
      empty or already ends in a separator or a drive colon. */
  function JoinPath(directory: string, name: string): (path: string)
    ensures |path| == |directory| + |name| || |path| == |directory| + 1 + |name|
    ensures path[..|directory|] == directory
    ensures path[|path| - |name|..] == name
    ensures |path| == |directory| + 1 + |name| <==>
              directory != [] && !IsSeparator(directory[|directory| - 1])
    ensures |path| == |directory| + 1 + |name| ==> path[|directory|] == '\\'
  {
    if directory == [] || IsSeparator(directory[|directory| - 1]) then directory + name
    else directory + "\\" + name
  }

  /** Two entries of one directory with different names get different paths. */
  lemma JoinPathInjective(directory: string, name1: string, name2: string)
    requires JoinPath(directory, name1) == JoinPath(directory, name2)
    ensures name1 == name2
  {
    var path := JoinPath(directory, name1);
    assert |name1| == |name2|;
    assert name1 == path[|path| - |name1|..] == name2;
  }
}
