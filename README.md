# deduper: size-grouping index and duplicate summary

`deduper` takes one or more directory paths. It walks each one without
following symlinks and groups every regular file by its byte size. Then it
reports the candidate duplicate groups (sizes shared by more than one file)
and three totals: bytes processed, bytes in extra copies ("duplicate size"),
and the number of duplicate groups. Two files of the same size count as
duplicates even when their contents differ. The tool never hashes contents.

This project models the computing part of `main` in `deduper/src/main.rs`:

- **Walk** (`walk.dfy`): the input. A root is `Invalid` (missing, or not a
  directory) or `Valid` with the entries its walk yields. An entry is
  `Dir`, `Other` (a symlink or special file, for which `is_file()` is false),
  `File(path, size)` with `size == None` when the metadata read fails, or
  `WalkErr` (an error item that `filter_map(Result::ok)` drops).
  `ReadableFiles` and `ScannedFiles` are the records a walk and a whole scan
  insert, in visit order.
- **GroupingIndex** (`grouping.dfy`): the `HashMap<u64, Vec<PathBuf>>`, shown
  as `map<nat, seq<Path>>`. `IndexOf(files)` is the map after inserting
  `files` in order with `entry(size).or_default().push(path)`. Its lemmas
  show what each bucket holds: exactly the paths of the files of that size.
- **Aggregation** (`aggregation.dfy`): the summary as a fold, `Fold`, over the
  map's keys taken in an unspecified order. This matches iteration over a
  `HashMap`. The lemmas prove that the order does not matter and give the
  meaning of each total.
- **Deduper** (`deduper.dfy`): the imperative code. `Collect` is the loop
  over the roots, and `ScanWalk` the loop over one root's walk entries; they
  fill the map and the byte counters.
  `Aggregate` is the loop over the map's buckets. `Run` turns an empty
  argument list into a usage error before any scan starts.

Sizes and totals are unbounded `nat`s (see "Left out").

## Model

| member | source | states |
|---|---|---|
| Deduper.Collect | deduper/src/main.rs:14-63 | after all roots, the map equals the index of every readable file of every valid root, in visit order, and the running total is the sum of their sizes; invalid roots are skipped |
| Deduper.ScanWalk | deduper/src/main.rs:31-52 | walking one valid root extends the index by exactly that walk's readable files, in visit order, and its per-root byte counter ends as the sum of their sizes |
| Deduper.Aggregate | deduper/src/main.rs:68-77 | whatever order it takes the buckets in, the duplicate bytes and group count equal the fold of the map; it reports one line per bucket with more than one path, giving that size and its path count, with no size reported twice and none missed |
| Deduper.Run | deduper/src/main.rs:8-83 | zero roots gives the usage error and nothing else; otherwise the report's totals are the fold of the scanned index, and the processed total is the sum of all inserted sizes; the group count is the number of sizes with more than one file; duplicate bytes never exceed processed bytes; and there is one report line per such size, each giving that size's bucket length, with no size listed twice |
| Deduper.SummaryIndependentOfRootOrder | deduper/src/main.rs:19-77 | listing the same roots in any other order gives the same summary |
| Deduper.ThreeFileExample | deduper/src/main.rs:19-77 | a root with files of 100, 100 and 200 bytes gives 400 processed bytes, 100 duplicate bytes and one group; the only duplicate size is 100, and its bucket holds 2 files |
| Walk.ReadableFiles | deduper/src/main.rs:33-43 | the records one walk inserts, in visit order (a reference definition); there are never more records than entries |
| Walk.ScannedFiles | deduper/src/main.rs:19-24 | the records of a whole scan: each root's walk records, in root order, with nothing from an invalid root (a reference definition, characterised by ScannedFilesMembers) |
| GroupingIndex.Insert | deduper/src/main.rs:43 | one `entry(size).or_default().push(path)`: appends the path to the bucket for its size, creates the bucket if it is missing, and leaves the other keys as they are (a reference definition) |
| GroupingIndex.IndexOf | deduper/src/main.rs:14-43 | the map after inserting the records in order, starting from an empty map (a reference definition, characterised by IndexGroupsBySize) |
| Aggregation.BucketSummary | deduper/src/main.rs:69-72 | one bucket's contribution: its duplicate bytes never exceed its bytes, and it adds at most one group |
| Aggregation.Fold | deduper/src/main.rs:68-77 | the summary of a whole map, taking its keys in an unspecified order (a reference definition; FoldPick shows the order does not matter) |
| Walk.ReadableFilesMembers | deduper/src/main.rs:33-43 | a walk yields a record exactly for each regular-file entry whose metadata read succeeded (both directions) |
| Walk.SkippedEntryAddsNothing | deduper/src/main.rs:33-39 | a directory, non-regular file, walk error or failed metadata read, wherever it occurs, leaves the records unchanged |
| Walk.InvalidRootAddsNothing | deduper/src/main.rs:21-24 | an invalid root anywhere in the list is skipped, and the roots before and after it are scanned as if it were absent |
| Walk.ScannedFilesMembers | deduper/src/main.rs:19-43 | a scan records a file exactly when the walk of some valid root reached it with readable metadata |
| Walk.RootOrderKeepsSizes | deduper/src/main.rs:19-43 | reordering the roots leaves the multiset of inserted sizes unchanged |
| GroupingIndex.PathsOfSize | deduper/src/main.rs:43 | the size-filtered path list has one entry per file of that size, and holds exactly those files' paths |
| GroupingIndex.IndexGroupsBySize | deduper/src/main.rs:43 | after the inserts, a size is a key exactly when some inserted file has it, and its bucket is the paths of the files of that size, in visit order |
| GroupingIndex.BucketContents | deduper/src/main.rs:43 | every bucket is non-empty, its length is the number of files of that size, and it holds a path exactly when a file with that path and size was inserted |
| GroupingIndex.PathInOneBucket | deduper/src/main.rs:43 | when no path is visited twice, a path lies in at most one bucket |
| Aggregation.FoldPick | deduper/src/main.rs:68-77 | the fold may visit any key first and give the same summary, so the hash map's iteration order does not matter |
| Aggregation.FoldCongruent | deduper/src/main.rs:68-77 | the summary depends only on the keys and on the length of each bucket |
| Aggregation.GroupsAreDuplicateSizes | deduper/src/main.rs:69-72 | the group count is the number of sizes whose bucket holds more than one path |
| Aggregation.DuplicateBytesBounded | deduper/src/main.rs:68-71 | the duplicate bytes never exceed the processed bytes |
| Aggregation.ProcessedIsTotalSize | deduper/src/main.rs:40-54 | the sum of `size * len(bucket)` over all buckets, singletons included, equals the sum of the sizes of all inserted files |
| Aggregation.SummaryDependsOnlyOnSizes | deduper/src/main.rs:43-77 | two scans that insert the same multiset of sizes have the same summary, whatever their paths and order |

## Left out

- Filesystem access is not modelled. `Path::exists`, `is_dir`, the
  `WalkDir` traversal (its order and its no-follow-symlink policy) and
  `entry.metadata()` are foreign calls. Their observable results are inputs:
  the `Root` and `Entry` values.
- All printing and flushing is left out as pure output: the scanning and
  progress lines (main.rs:28-29, 46-51, 56-62), the summary header and the
  final totals (main.rs:66, 79-83). The per-group report line (main.rs:75) is
  modelled as the `GroupLine` values that `Aggregate` returns.
- The per-root progress line prints `total_duplicate_size`, which is always
  0 there because it is only computed after the scan. The quirk is
  display-only and not modelled.
- `to_string_lossy` rendering of paths (main.rs:47) is display-only and left
  out.
- `std::process::exit(1)` and the exit status appear only as the
  `UsageError` outcome.
- Deduper.Collect: does not model `u64` overflow of sizes or of the running
  totals (a panic in a debug build, wrap-around in a release build). Sizes
  and totals are unbounded.
- Deduper.Aggregate: does not model `u64` overflow of `size * (len - 1)` or
  of the duplicate total, nor `usize` overflow of the group count.
- Paths are taken as the walk reports them. Overlapping roots can record the
  same file twice, as the program does. PathInOneBucket assumes distinct
  paths and does not enforce them.
