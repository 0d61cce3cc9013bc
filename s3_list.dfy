/** `GET /api/s3/list`: the CSV files of the bucket, newest first.

    The listing itself is a call into the storage service; its `Contents`
    (absent when the bucket is empty) is a parameter here.  A timestamp is
    `LastModified.getTime()` in milliseconds, `None` when the object has
    none. */
module S3List {
  import opened Seqs
  import opened Sorting

  datatype S3Object = S3Object(key: Option<string>, lastModified: Option<int>, size: Option<int>)

  /** `{ key, lastModified, size }` of one listed file. */
  datatype FileEntry = FileEntry(key: Option<string>, lastModified: Option<int>, size: Option<int>)

  datatype Listing = Files(files: seq<FileEntry>) | NotConfigured

  const CsvSuffix: string := ".csv"

  /** `s.endsWith(suffix)`. */
  predicate EndsWith(s: string, suffix: string) {
    |suffix| <= |s| && s[|s| - |suffix|..] == suffix
  }

  /** `item.Key?.endsWith(".csv")`: an object without a key is dropped. */
  predicate IsCsv(o: S3Object) {
    o.key.Some? && EndsWith(o.key.value, CsvSuffix)
  }

  function EntryOf(o: S3Object): FileEntry {
    FileEntry(o.key, o.lastModified, o.size)
  }

  /** `lastModified?.getTime() || 0`. */
  function Time(f: FileEntry): int {
    f.lastModified.GetOr(0)
  }

  /** `(a, b) => time(b) - time(a)` read as "`a` may come before `b`":
      newer first. */
  function NewerFirst(a: FileEntry, b: FileEntry): bool {
    Time(b) <= Time(a)
  }

  lemma NewerFirstTotalPreorder()
    ensures TotalPreorder(NewerFirst)
  {
  }

  function CsvFiles(contents: Option<seq<S3Object>>): seq<FileEntry> {
    SortBy(NewerFirst, MapSeq(Filter(contents.GetOr([]), IsCsv), EntryOf))
  }

  /** The route: a missing or empty bucket name is an error before anything
      is listed; otherwise the CSV objects, newest first, and no contents
      give no files. */
  function List(bucket: Option<string>, contents: Option<seq<S3Object>>): (r: Listing)
    ensures bucket.None? || bucket == Some("") ==> r == NotConfigured
    ensures r.Files? ==> |r.files| <= |contents.GetOr([])|
    ensures bucket.Some? && bucket.value != "" && contents.GetOr([]) == [] ==> r == Files([])
  {
    if bucket.None? || bucket.value == "" then NotConfigured
    else Files(CsvFiles(contents))
  }

  /** The files are exactly the CSV objects, each once, with their key,
      timestamp and size unchanged. */
  lemma ListedAreCsv(contents: Option<seq<S3Object>>, f: FileEntry)
    ensures f in CsvFiles(contents) <==>
            exists o :: o in contents.GetOr([]) && IsCsv(o) && EntryOf(o) == f
    ensures multiset(CsvFiles(contents)) == multiset(MapSeq(Filter(contents.GetOr([]), IsCsv), EntryOf))
  {
    var entries := MapSeq(Filter(contents.GetOr([]), IsCsv), EntryOf);
    assert f in CsvFiles(contents) <==> f in multiset(entries);
    FilterMapMember(contents.GetOr([]), IsCsv, EntryOf, f);
  }

  /** Newest first, an object without a timestamp counting as time 0; files
      with equal times keep the listing's order. */
  lemma NewestFirst(contents: Option<seq<S3Object>>, y: FileEntry)
    ensures var files := CsvFiles(contents);
            forall i, j :: 0 <= i < j < |files| ==> Time(files[j]) <= Time(files[i])
    ensures Filter(CsvFiles(contents), EquivTo(NewerFirst, y))
         == Filter(MapSeq(Filter(contents.GetOr([]), IsCsv), EntryOf), EquivTo(NewerFirst, y))
  {
    var entries := MapSeq(Filter(contents.GetOr([]), IsCsv), EntryOf);
    NewerFirstTotalPreorder();
    SortBySorted(NewerFirst, entries);
    SortByStable(NewerFirst, entries, y);
  }

  /** Every listed key ends in ".csv". */
  lemma ListedKeysEndInCsv(contents: Option<seq<S3Object>>, i: int)
    requires 0 <= i < |CsvFiles(contents)|
    ensures CsvFiles(contents)[i].key.Some? && EndsWith(CsvFiles(contents)[i].key.value, CsvSuffix)
  {
    ListedAreCsv(contents, CsvFiles(contents)[i]);
  }
}
