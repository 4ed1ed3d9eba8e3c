/**
 The scan-and-aggregate pipeline of the deduper command: the collector that
 walks every root and fills the size index while keeping a running byte
 total, the aggregator that folds the finished index into the duplicate
 totals, and the entry point that rejects an empty argument list.
 */
module Deduper {
  import opened Walk
  import opened GroupingIndex
  import opened Aggregation

  /** One line of the duplicate report: a size and how many files share it. */
  datatype GroupLine = GroupLine(size: nat, count: nat)

  /** What a run produces: a usage error, or the report. */
  datatype Outcome =
    | UsageError
    | Report(groups: seq<GroupLine>, summary: Summary)

  /**
   The collector: for each root in turn, skip it if invalid, otherwise walk it
   and add that root's byte count to the overall total.
   */
  method Collect(roots: seq<Root>) returns (filesBySize: Index, totalProcessedSize: nat)
    ensures filesBySize == IndexOf(ScannedFiles(roots))
    ensures totalProcessedSize == TotalSize(ScannedFiles(roots))
  {
    filesBySize, totalProcessedSize := map[], 0;
    var i := 0;
    while i < |roots|
      invariant 0 <= i <= |roots|
      invariant filesBySize == IndexOf(ScannedFiles(roots[..i]))
      invariant totalProcessedSize == TotalSize(ScannedFiles(roots[..i]))
    {
      var root := roots[i];
      RootStep(roots, i);
      match root {
        case Invalid(_) =>
          // missing, or not a directory: skipped with a diagnostic
        case Valid(_, walk) =>
          ghost var before := ScannedFiles(roots[..i]);
          var dirProcessedSize;
          filesBySize, dirProcessedSize := ScanWalk(before, filesBySize, walk);
          TotalSizeAppend(before, ReadableFiles(walk));
          totalProcessedSize := totalProcessedSize + dirProcessedSize;
      }
      i := i + 1;
    }
    assert roots[..i] == roots;
  }

  /**
   The walk of one valid root: every readable regular file is appended to the
   bucket for its size and its size added to the root's byte count;
   directories, other entries, walk errors and failed metadata reads are
   passed over.
   */
  method ScanWalk(ghost before: seq<FileRecord>, m0: Index, walk: seq<Entry>)
    returns (m: Index, dirProcessedSize: nat)
    requires m0 == IndexOf(before)
    ensures m == IndexOf(before + ReadableFiles(walk))
    ensures dirProcessedSize == TotalSize(ReadableFiles(walk))
  {
    m, dirProcessedSize := m0, 0;
    var j := 0;
    assert walk[..0] == [] && before + [] == before;
    while j < |walk|
      invariant 0 <= j <= |walk|
      invariant m == IndexOf(before + ReadableFiles(walk[..j]))
      invariant dirProcessedSize == TotalSize(ReadableFiles(walk[..j]))
    {
      var entry := walk[j];
      EntryStep(walk, j);
      if entry.File? {
        match entry.size {
          case None =>
            // the metadata read failed: the entry is dropped
          case Some(size) =>
            InsertStep(before, ReadableFiles(walk[..j]), Record(entry));
            dirProcessedSize := dirProcessedSize + size;
            m := m[size := BucketOr(m, size) + [entry.path]];
        }
      }
      j := j + 1;
    }
    assert walk[..j] == walk;
  }

  /** Scanning one more root appends what it contributes. */
  lemma RootStep(roots: seq<Root>, i: nat)
    requires i < |roots|
    ensures ScannedFiles(roots[..i + 1]) == ScannedFiles(roots[..i]) + RootFiles(roots[i])
    ensures roots[i].Invalid? ==> ScannedFiles(roots[..i + 1]) == ScannedFiles(roots[..i])
  {
    assert roots[..i + 1][..i] == roots[..i];
  }

  /** Visiting one more entry adds its record when it is readable, and nothing otherwise. */
  lemma EntryStep(walk: seq<Entry>, j: nat)
    requires j < |walk|
    ensures Readable(walk[j]) ==> ReadableFiles(walk[..j + 1]) == ReadableFiles(walk[..j]) + [Record(walk[j])]
    ensures !Readable(walk[j]) ==> ReadableFiles(walk[..j + 1]) == ReadableFiles(walk[..j])
  {
    assert walk[..j + 1][..j] == walk[..j];
  }

  /**
   Inserting a readable file appends it to its size's bucket and adds its
   size to the running total.
   */
  lemma InsertStep(before: seq<FileRecord>, seen: seq<FileRecord>, f: FileRecord)
    ensures IndexOf(before + (seen + [f])) == Insert(IndexOf(before + seen), f)
    ensures TotalSize(seen + [f]) == TotalSize(seen) + f.size
  {
    IndexAppend(before + seen, f);
    assert (before + seen) + [f] == before + (seen + [f]);
    assert (seen + [f])[..|seen|] == seen;
  }

  /**
   The aggregator: visit the buckets in whatever order the map yields them;
   each bucket with more than one path adds the bytes of its extra copies and
   one group, and is reported with its size and count.
   */
  method Aggregate(filesBySize: Index) returns (totalDuplicateSize: nat, duplicateGroups: nat, lines: seq<GroupLine>)
    ensures totalDuplicateSize == Fold(filesBySize).duplicateBytes
    ensures duplicateGroups == Fold(filesBySize).groups == |lines|
    ensures forall i :: 0 <= i < |lines| ==>
              lines[i].size in DuplicateSizes(filesBySize) && lines[i].count == |filesBySize[lines[i].size]|
    ensures forall s :: s in DuplicateSizes(filesBySize) ==> exists i :: 0 <= i < |lines| && lines[i].size == s
    ensures forall i, j :: 0 <= i < j < |lines| ==> lines[i].size != lines[j].size
  {
    totalDuplicateSize, duplicateGroups, lines := 0, 0, [];
    var remaining := filesBySize;
    while remaining != map[]
      invariant remaining.Keys <= filesBySize.Keys
      invariant forall s :: s in remaining ==> remaining[s] == filesBySize[s]
      invariant totalDuplicateSize + Fold(remaining).duplicateBytes == Fold(filesBySize).duplicateBytes
      invariant duplicateGroups + Fold(remaining).groups == Fold(filesBySize).groups
      invariant duplicateGroups == |lines|
      invariant forall i :: 0 <= i < |lines| ==>
                  lines[i].size in DuplicateSizes(filesBySize) && lines[i].size !in remaining
                  && lines[i].count == |filesBySize[lines[i].size]|
      invariant forall s :: s in DuplicateSizes(filesBySize) && s !in remaining ==>
                  exists i :: 0 <= i < |lines| && lines[i].size == s
      invariant forall i, j :: 0 <= i < j < |lines| ==> lines[i].size != lines[j].size
      decreases |remaining|
    {
      var size :| size in remaining;
      var paths := remaining[size];
      var rest := remaining - {size};
      FoldPick(remaining, size);
      ghost var here, later := BucketSummary(size, paths), Fold(rest);
      assert Fold(remaining) == Plus(here, later);
      if |paths| > 1 {
        var duplicateSize := size * (|paths| - 1);
        assert here.duplicateBytes == duplicateSize && here.groups == 1;
        totalDuplicateSize := totalDuplicateSize + duplicateSize;
        duplicateGroups := duplicateGroups + 1;
        ghost var previous := lines;
        lines := lines + [GroupLine(size, |paths|)];
        assert forall i :: 0 <= i < |previous| ==> lines[i] == previous[i];
        assert lines[|previous|].size == size;
      } else {
        assert here.duplicateBytes == 0 && here.groups == 0;
      }
      assert rest.Keys == remaining.Keys - {size};
      remaining := rest;
    }
  }

  /**
   The whole run: no roots is a usage error before anything is scanned;
   otherwise collect, then aggregate, and report.
   */
  method Run(roots: seq<Root>) returns (outcome: Outcome)
    ensures outcome.UsageError? <==> roots == []
    ensures outcome.Report? ==> outcome.summary == Fold(IndexOf(ScannedFiles(roots)))
    ensures outcome.Report? ==> outcome.summary.processed == TotalSize(ScannedFiles(roots))
    ensures outcome.Report? ==> |outcome.groups| == outcome.summary.groups
    ensures outcome.Report? ==> forall i :: 0 <= i < |outcome.groups| ==>
              var line, m := outcome.groups[i], IndexOf(ScannedFiles(roots));
              line.size in DuplicateSizes(m) && line.count == |m[line.size]|
    ensures outcome.Report? ==> forall s :: s in DuplicateSizes(IndexOf(ScannedFiles(roots))) ==>
              exists i :: 0 <= i < |outcome.groups| && outcome.groups[i].size == s
    ensures outcome.Report? ==> forall i, j :: 0 <= i < j < |outcome.groups| ==>
              outcome.groups[i].size != outcome.groups[j].size
    ensures outcome.Report? ==> outcome.summary.groups == |DuplicateSizes(IndexOf(ScannedFiles(roots)))|
    ensures outcome.Report? ==> outcome.summary.duplicateBytes <= outcome.summary.processed
  {
    if roots == [] {
      return UsageError;
    }
    var filesBySize, totalProcessedSize := Collect(roots);
    var totalDuplicateSize, duplicateGroups, lines := Aggregate(filesBySize);
    ProcessedIsTotalSize(ScannedFiles(roots));
    GroupsAreDuplicateSizes(filesBySize);
    DuplicateBytesBounded(filesBySize);
    outcome := Report(lines, Summary(totalProcessedSize, totalDuplicateSize, duplicateGroups));
  }

  /**
   Listing the same roots in another order gives the same summary: the
   grouping is keyed by size and the fold is order-independent.
   */
  lemma SummaryIndependentOfRootOrder(r1: seq<Root>, r2: seq<Root>)
    requires multiset(r1) == multiset(r2)
    ensures Fold(IndexOf(ScannedFiles(r1))) == Fold(IndexOf(ScannedFiles(r2)))
  {
    RootOrderKeepsSizes(r1, r2);
    SummaryDependsOnlyOnSizes(ScannedFiles(r1), ScannedFiles(r2));
  }

  /**
   A root holding files a (100 bytes), b (100 bytes) and c (200 bytes) gives
   400 processed bytes, 100 duplicate bytes and one duplicate group.
   */
  lemma ThreeFileExample(roots: seq<Root>)
    requires roots == [Valid("r", [Dir("r"), File("r/a", Some(100)), File("r/b", Some(100)), File("r/c", Some(200))])]
    ensures Fold(IndexOf(ScannedFiles(roots))) == Summary(400, 100, 1)
    ensures DuplicateSizes(IndexOf(ScannedFiles(roots))) == {100}
    ensures |IndexOf(ScannedFiles(roots))[100]| == 2
  {
    var files := [FileRecord("r/a", 100), FileRecord("r/b", 100), FileRecord("r/c", 200)];
    ExampleWalk(roots[0].walk);
    RootStep(roots, 0);
    assert roots[..1] == roots;
    assert roots[..0] == [];
    assert ScannedFiles(roots) == files;
    ExampleIndex();
    ExampleFold(IndexOf(files));
    ExampleDuplicates(IndexOf(files));
  }

  lemma ExampleWalk(walk: seq<Entry>)
    requires walk == [Dir("r"), File("r/a", Some(100)), File("r/b", Some(100)), File("r/c", Some(200))]
    ensures ReadableFiles(walk) == [FileRecord("r/a", 100), FileRecord("r/b", 100), FileRecord("r/c", 200)]
  {
    assert walk[..0] == [];
    EntryStep(walk, 0);
    EntryStep(walk, 1);
    EntryStep(walk, 2);
    EntryStep(walk, 3);
    assert walk[..4] == walk;
  }

  lemma ExampleIndex()
    ensures IndexOf([FileRecord("r/a", 100), FileRecord("r/b", 100), FileRecord("r/c", 200)])
         == map[100 := ["r/a", "r/b"], 200 := ["r/c"]]
  {
    var a, b, c := FileRecord("r/a", 100), FileRecord("r/b", 100), FileRecord("r/c", 200);
    var none: seq<FileRecord> := [];
    assert IndexOf(none) == map[];
    IndexAppend(none, a);
    assert none + [a] == [a];
    assert BucketOr(map[], 100) == [];
    assert [] + ["r/a"] == ["r/a"];
    assert IndexOf([a]) == map[100 := ["r/a"]];
    IndexAppend([a], b);
    assert [a] + [b] == [a, b];
    assert ["r/a"] + ["r/b"] == ["r/a", "r/b"];
    assert IndexOf([a, b]) == map[100 := ["r/a", "r/b"]];
    IndexAppend([a, b], c);
    assert [a, b] + [c] == [a, b, c];
    assert BucketOr(map[100 := ["r/a", "r/b"]], 200) == [];
    assert [] + ["r/c"] == ["r/c"];
  }

  lemma ExampleFold(m: Index)
    requires m == map[100 := ["r/a", "r/b"], 200 := ["r/c"]]
    ensures Fold(m) == Summary(400, 100, 1)
  {
    var rest := m - {100};
    assert rest == map[200 := ["r/c"]];
    ExampleSingletonFold(rest);
    FoldPick(m, 100);
    assert BucketSummary(100, m[100]) == Summary(200, 100, 1);
  }

  lemma ExampleDuplicates(m: Index)
    requires m == map[100 := ["r/a", "r/b"], 200 := ["r/c"]]
    ensures DuplicateSizes(m) == {100}
    ensures |m[100]| == 2
  {
    assert 100 in DuplicateSizes(m);
    forall k | k in DuplicateSizes(m) ensures k == 100 {
      assert k in m;
    }
  }

  lemma ExampleSingletonFold(m: Index)
    requires m == map[200 := ["r/c"]]
    ensures Fold(m) == Summary(200, 0, 0)
  {
    assert m - {200} == map[];
    FoldPick(m, 200);
  }
}
