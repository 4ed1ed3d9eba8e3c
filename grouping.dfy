/**
 The grouping index: byte size -> the paths of the files of that size, in the
 order they were visited. Defined here by what it must contain after a given
 sequence of inserts; the collector that builds it step by step is in Deduper.
 */
module GroupingIndex {
  import opened Walk

  type Index = map<nat, seq<Path>>

  /** The paths of the files in `files` whose size is `s`, in visit order. */
  function PathsOfSize(files: seq<FileRecord>, s: nat): (r: seq<Path>)
    ensures |r| == multiset(SizesOf(files))[s]
    ensures forall p :: p in r <==> FileRecord(p, s) in files
  {
    if files == [] then []
    else
      var n := |files| - 1;
      assert files == files[..n] + [files[n]];
      assert SizesOf(files) == SizesOf(files[..n]) + [files[n].size];
      PathsOfSize(files[..n], s) + (if files[n].size == s then [files[n].path] else [])
  }

  /** The bucket that inserting a file of size `s` appends to: empty when `s` is new. */
  function BucketOr(m: Index, s: nat): seq<Path> {
    if s in m then m[s] else []
  }

  /** One insert: append the path to the bucket for its size, creating the bucket if needed. */
  function Insert(m: Index, f: FileRecord): Index {
    m[f.size := BucketOr(m, f.size) + [f.path]]
  }

  /** The index after inserting `files` in order into an empty map. */
  function IndexOf(files: seq<FileRecord>): Index {
    if files == [] then map[]
    else
      var n := |files| - 1;
      Insert(IndexOf(files[..n]), files[n])
  }

  lemma IndexAppend(files: seq<FileRecord>, f: FileRecord)
    ensures IndexOf(files + [f]) == Insert(IndexOf(files), f)
  {
    assert (files + [f])[..|files|] == files;
  }

  /**
   What the index holds: a size is a key exactly when some inserted file has
   that size, and its bucket lists exactly the paths of the files of that
   size, in visit order; so no bucket is empty and its length is the number of
   files of that size.
   */
  lemma {:induction false} IndexGroupsBySize(files: seq<FileRecord>, s: nat)
    ensures s in IndexOf(files) <==> s in SizesOf(files)
    ensures BucketOr(IndexOf(files), s) == PathsOfSize(files, s)
    decreases |files|
  {
    if files != [] {
      var n := |files| - 1;
      assert files == files[..n] + [files[n]];
      assert SizesOf(files) == SizesOf(files[..n]) + [files[n].size];
      IndexGroupsBySize(files[..n], s);
    }
  }

  /** Consequences for one bucket: its members and its length. */
  lemma BucketContents(files: seq<FileRecord>, s: nat)
    ensures s in IndexOf(files) <==> s in SizesOf(files)
    ensures s in IndexOf(files) ==> |IndexOf(files)[s]| == multiset(SizesOf(files))[s] > 0
    ensures forall p :: p in BucketOr(IndexOf(files), s) <==> FileRecord(p, s) in files
  {
    IndexGroupsBySize(files, s);
  }

  /**
   When no path is visited twice, a path sits in at most one bucket, and that
   bucket is the one for its size.
   */
  lemma PathInOneBucket(files: seq<FileRecord>, p: Path, s1: nat, s2: nat)
    requires forall i, j :: 0 <= i < j < |files| ==> files[i].path != files[j].path
    requires p in BucketOr(IndexOf(files), s1) && p in BucketOr(IndexOf(files), s2)
    ensures s1 == s2
  {
    BucketContents(files, s1);
    BucketContents(files, s2);
    var i :| 0 <= i < |files| && files[i] == FileRecord(p, s1);
    var j :| 0 <= j < |files| && files[j] == FileRecord(p, s2);
  }
}
