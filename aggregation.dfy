/**
 The summary the aggregator derives from the grouping index, defined as a
 fold over the map's keys in an order left unspecified (the order a hash map
 happens to iterate in), together with the proof that the order does not
 matter.
 */
module Aggregation {
  import opened Walk
  import opened GroupingIndex

  /** The three reported totals. */
  datatype Summary = Summary(processed: nat, duplicateBytes: nat, groups: nat)

  function Plus(a: Summary, b: Summary): Summary {
    Summary(a.processed + b.processed, a.duplicateBytes + b.duplicateBytes, a.groups + b.groups)
  }

  /**
   What one bucket contributes: all of its bytes to the processed total and,
   when it holds more than one path, the bytes of every copy beyond the first
   and one duplicate group.
   */
  function BucketSummary(size: nat, paths: seq<Path>): (r: Summary)
    ensures r.duplicateBytes <= r.processed
    ensures r.groups <= 1
  {
    if |paths| > 1 then
      assert size * |paths| == size * (|paths| - 1) + size;
      Summary(size * |paths|, size * (|paths| - 1), 1)
    else Summary(size * |paths|, 0, 0)
  }

  lemma PlusSwap(a: Summary, b: Summary, c: Summary)
    ensures Plus(a, Plus(b, c)) == Plus(b, Plus(a, c))
  {
  }

  /** The summary of a whole index, visiting its keys in some order. */
  ghost function Fold(m: Index): Summary
    decreases |m|
  {
    if m == map[] then Summary(0, 0, 0)
    else
      var k :| k in m;
      assert |m - {k}| < |m| by {
        assert (m - {k}).Keys == m.Keys - {k};
      }
      Plus(BucketSummary(k, m[k]), Fold(m - {k}))
  }

  /**
   Order independence: the fold may take any key first. Hence every visiting
   order of the index yields the same summary.
   */
  lemma {:induction false} FoldPick(m: Index, k: nat)
    requires k in m
    ensures Fold(m) == Plus(BucketSummary(k, m[k]), Fold(m - {k}))
    decreases |m|
  {
    var j :| j in m && Fold(m) == Plus(BucketSummary(j, m[j]), Fold(m - {j}));
    if j != k {
      var mj, mk := m - {j}, m - {k};
      assert mj.Keys == m.Keys - {j} && k in mj && mj[k] == m[k];
      assert mk.Keys == m.Keys - {k} && j in mk && mk[j] == m[j];
      FoldPick(mj, k);
      FoldPick(mk, j);
      assert mj - {k} == mk - {j};
      PlusSwap(BucketSummary(j, m[j]), BucketSummary(k, m[k]), Fold(mj - {k}));
    }
  }

  lemma SameLengthSameBucketSummary(size: nat, p1: seq<Path>, p2: seq<Path>)
    requires |p1| == |p2|
    ensures BucketSummary(size, p1) == BucketSummary(size, p2)
  {
  }

  /** The summary depends only on which sizes are keys and how long each bucket is. */
  lemma {:induction false} FoldCongruent(m1: Index, m2: Index)
    requires m1.Keys == m2.Keys
    requires forall k :: k in m1 ==> |m1[k]| == |m2[k]|
    ensures Fold(m1) == Fold(m2)
    decreases |m1|
  {
    if m1 != map[] {
      var k :| k in m1 && Fold(m1) == Plus(BucketSummary(k, m1[k]), Fold(m1 - {k}));
      FoldPick(m2, k);
      var r1, r2 := m1 - {k}, m2 - {k};
      assert r1.Keys == m1.Keys - {k} && r2.Keys == r1.Keys;
      assert forall j :: j in r1 ==> |r1[j]| == |r2[j]|;
      FoldCongruent(r1, r2);
      SameLengthSameBucketSummary(k, m1[k], m2[k]);
    } else {
      assert m2 == map[];
    }
  }

  lemma BucketSummaryBounds(size: nat, paths: seq<Path>)
    ensures BucketSummary(size, paths).groups == (if |paths| > 1 then 1 else 0)
  {
  }

  /** The sizes whose bucket holds more than one path. */
  function DuplicateSizes(m: Index): set<nat> {
    set k | k in m && |m[k]| > 1
  }

  /** Removing one bucket removes its size from the duplicate sizes, if it was one. */
  lemma DuplicateSizesRemove(m: Index, k: nat)
    requires k in m
    ensures |DuplicateSizes(m)| == |DuplicateSizes(m - {k})| + (if |m[k]| > 1 then 1 else 0)
  {
    var d := DuplicateSizes(m - {k});
    assert k !in d;
    if |m[k]| > 1 {
      assert DuplicateSizes(m) == d + {k};
    } else {
      assert DuplicateSizes(m) == d;
    }
  }

  /** The number of duplicate groups is the number of sizes with more than one path. */
  lemma {:induction false} GroupsAreDuplicateSizes(m: Index)
    ensures Fold(m).groups == |DuplicateSizes(m)|
    decreases |m|
  {
    if m != map[] {
      var k :| k in m && Fold(m) == Plus(BucketSummary(k, m[k]), Fold(m - {k}));
      var rest := m - {k};
      assert rest.Keys == m.Keys - {k};
      GroupsAreDuplicateSizes(rest);
      BucketSummaryBounds(k, m[k]);
      DuplicateSizesRemove(m, k);
      var a, b := BucketSummary(k, m[k]), Fold(rest);
      assert Fold(m) == Plus(a, b);
    } else {
      assert DuplicateSizes(m) == {};
    }
  }

  /** Duplicate bytes never exceed processed bytes. */
  lemma {:induction false} DuplicateBytesBounded(m: Index)
    ensures Fold(m).duplicateBytes <= Fold(m).processed
    decreases |m|
  {
    if m != map[] {
      var k :| k in m && Fold(m) == Plus(BucketSummary(k, m[k]), Fold(m - {k}));
      var rest := m - {k};
      assert rest.Keys == m.Keys - {k};
      DuplicateBytesBounded(rest);
      BucketSummaryBounds(k, m[k]);
      var a, b := BucketSummary(k, m[k]), Fold(rest);
      assert a.duplicateBytes <= a.processed;
      assert b.duplicateBytes <= b.processed;
      assert Fold(m) == Plus(a, b);
    }
  }

  /** Replacing one bucket changes the summary by exactly that bucket's contribution. */
  lemma FoldUpdate(m: Index, k: nat, paths: seq<Path>)
    ensures Fold(m[k := paths]) == Plus(BucketSummary(k, paths), Fold(m - {k}))
  {
    FoldPick(m[k := paths], k);
    assert m[k := paths] - {k} == m - {k};
  }

  /** The processed total of the index is the sum of the sizes of every inserted file. */
  lemma {:induction false} ProcessedIsTotalSize(files: seq<FileRecord>)
    ensures Fold(IndexOf(files)).processed == TotalSize(files)
    decreases |files|
  {
    if files == [] {
      assert IndexOf(files) == map[];
    } else {
      var n := |files| - 1;
      var f := files[n];
      assert files == files[..n] + [f];
      ProcessedIsTotalSize(files[..n]);
      var m := IndexOf(files[..n]);
      IndexAppend(files[..n], f);
      FoldUpdate(m, f.size, BucketOr(m, f.size) + [f.path]);
      if f.size in m {
        FoldPick(m, f.size);
      } else {
        assert m - {f.size} == m;
      }
    }
  }

  /**
   The summary depends only on how often each size occurs among the inserted
   files, not on their paths or the order they were inserted in.
   */
  lemma SummaryDependsOnlyOnSizes(f1: seq<FileRecord>, f2: seq<FileRecord>)
    requires multiset(SizesOf(f1)) == multiset(SizesOf(f2))
    ensures Fold(IndexOf(f1)) == Fold(IndexOf(f2))
  {
    var m1, m2 := IndexOf(f1), IndexOf(f2);
    forall s ensures (s in m1 <==> s in m2) && (s in m1 ==> |m1[s]| == |m2[s]|) {
      BucketContents(f1, s);
      BucketContents(f2, s);
      assert s in SizesOf(f1) <==> s in multiset(SizesOf(f1));
      assert s in SizesOf(f2) <==> s in multiset(SizesOf(f2));
    }
    assert m1.Keys == m2.Keys;
    FoldCongruent(m1, m2);
  }
}
