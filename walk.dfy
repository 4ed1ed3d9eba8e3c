/**
 The input side of the scan: each command-line root, and the entries a
 non-following directory walk yields for it. The filesystem itself is not
 modelled; what the walk would observe is given as data.
 */
module Walk {

  type Path = string

  datatype Option<T> = None | Some(value: T)

  /** One item produced by walking a root with symlinks not followed. */
  datatype Entry =
    | Dir(path: Path)                      // a directory (including the root itself)
    | Other(path: Path)                    // a symlink or special file: not a regular file
    | File(path: Path, size: Option<nat>)  // a regular file; None when its metadata cannot be read
    | WalkErr                              // an error item, discarded by the walk's error filter

  /** A root argument: missing or not a directory, or a directory and what its walk yields. */
  datatype Root = Invalid(name: Path) | Valid(name: Path, walk: seq<Entry>)

  /** A file that made it into the index: its path and byte size. */
  datatype FileRecord = FileRecord(path: Path, size: nat)

  /** The entries the collector inserts: regular files whose metadata could be read. */
  predicate Readable(e: Entry) {
    e.File? && e.size.Some?
  }

  function Record(e: Entry): FileRecord
    requires Readable(e)
  {
    FileRecord(e.path, e.size.value)
  }

  /** The records one walk contributes, in visit order. */
  function ReadableFiles(walk: seq<Entry>): (r: seq<FileRecord>)
    ensures |r| <= |walk|
  {
    if walk == [] then []
    else
      var n := |walk| - 1;
      assert walk == walk[..n] + [walk[n]];
      var rest := ReadableFiles(walk[..n]);
      if Readable(walk[n]) then rest + [Record(walk[n])] else rest
  }

  /**
   A record is produced exactly for each regular file entry whose metadata
   read succeeded; directories, other entries, walk errors and failed reads
   produce none.
   */
  lemma {:induction false} ReadableFilesMembers(walk: seq<Entry>)
    ensures forall f :: f in ReadableFiles(walk) <==> File(f.path, Some(f.size)) in walk
    decreases |walk|
  {
    if walk != [] {
      var n := |walk| - 1;
      assert walk == walk[..n] + [walk[n]];
      ReadableFilesMembers(walk[..n]);
    }
  }

  /** The records a single root contributes; an invalid root contributes nothing. */
  function RootFiles(root: Root): seq<FileRecord> {
    match root
    case Invalid(_) => []
    case Valid(_, walk) => ReadableFiles(walk)
  }

  /** Every record inserted while scanning `roots` in the order given. */
  function ScannedFiles(roots: seq<Root>): (r: seq<FileRecord>)
  {
    if roots == [] then []
    else
      var n := |roots| - 1;
      assert roots == roots[..n] + [roots[n]];
      ScannedFiles(roots[..n]) + RootFiles(roots[n])
  }

  /** A scan records a file exactly when some valid root's walk reached it with readable metadata. */
  lemma {:induction false} ScannedFilesMembers(roots: seq<Root>, f: FileRecord)
    ensures f in ScannedFiles(roots) <==>
            exists i :: 0 <= i < |roots| && roots[i].Valid? && File(f.path, Some(f.size)) in roots[i].walk
    decreases |roots|
  {
    if roots != [] {
      var n := |roots| - 1;
      assert roots[..n] + [roots[n]] == roots;
      ScannedFilesMembers(roots[..n], f);
      if roots[n].Valid? {
        ReadableFilesMembers(roots[n].walk);
      }
      if exists i :: 0 <= i < |roots| && roots[i].Valid? && File(f.path, Some(f.size)) in roots[i].walk {
        var i :| 0 <= i < |roots| && roots[i].Valid? && File(f.path, Some(f.size)) in roots[i].walk;
        if i < n {
          assert roots[..n][i] == roots[i];
        }
      }
    }
  }

  /** The byte sizes of `files`, in the same order. */
  function SizesOf(files: seq<FileRecord>): seq<nat> {
    seq(|files|, i requires 0 <= i < |files| => files[i].size)
  }

  /** The sum of the sizes of `files`. */
  function TotalSize(files: seq<FileRecord>): nat {
    if files == [] then 0 else TotalSize(files[..|files| - 1]) + files[|files| - 1].size
  }

  lemma {:induction false} ReadableFilesAppend(a: seq<Entry>, b: seq<Entry>)
    ensures ReadableFiles(a + b) == ReadableFiles(a) + ReadableFiles(b)
    decreases |b|
  {
    if b != [] {
      var n := |b| - 1;
      assert (a + b)[..|a + b| - 1] == a + b[..n];
      ReadableFilesAppend(a, b[..n]);
    } else {
      assert a + b == a;
    }
  }

  /** A directory, a non-regular file, a walk error or a failed metadata read adds nothing. */
  lemma SkippedEntryAddsNothing(before: seq<Entry>, e: Entry, after: seq<Entry>)
    requires !Readable(e)
    ensures ReadableFiles(before + [e] + after) == ReadableFiles(before + after)
  {
    ReadableFilesAppend(before + [e], after);
    ReadableFilesAppend(before, [e]);
    ReadableFilesAppend(before, after);
    assert ReadableFiles([e]) == [] by {
      assert [e][..0] == [];
    }
  }

  lemma {:induction false} ScannedFilesAppend(a: seq<Root>, b: seq<Root>)
    ensures ScannedFiles(a + b) == ScannedFiles(a) + ScannedFiles(b)
    decreases |b|
  {
    if b != [] {
      var n := |b| - 1;
      assert (a + b)[..|a + b| - 1] == a + b[..n];
      ScannedFilesAppend(a, b[..n]);
    } else {
      assert a + b == a;
    }
  }

  /** An invalid root is skipped: the roots around it are scanned as if it were absent. */
  lemma InvalidRootAddsNothing(before: seq<Root>, name: Path, after: seq<Root>)
    ensures ScannedFiles(before + [Invalid(name)] + after) == ScannedFiles(before + after)
  {
    ScannedFilesAppend(before + [Invalid(name)], after);
    ScannedFilesAppend(before, [Invalid(name)]);
    ScannedFilesAppend(before, after);
    assert ScannedFiles([Invalid(name)]) == [] by {
      assert [Invalid(name)][..0] == [];
    }
  }

  lemma SizesOfAppend(a: seq<FileRecord>, b: seq<FileRecord>)
    ensures SizesOf(a + b) == SizesOf(a) + SizesOf(b)
  {
  }

  /** The sizes a scan inserts, as a multiset. */
  function SizeBag(roots: seq<Root>): multiset<nat> {
    multiset(SizesOf(ScannedFiles(roots)))
  }

  /** Taking one root out of the list takes exactly its files' sizes out of the scan. */
  lemma SizeBagWithout(rs: seq<Root>, i: nat)
    requires i < |rs|
    ensures SizeBag(rs) == SizeBag(rs[..i] + rs[i + 1..]) + multiset(SizesOf(RootFiles(rs[i])))
  {
    var x := rs[i];
    assert rs == rs[..i] + [x] + rs[i + 1..];
    ScannedFilesAppend(rs[..i] + [x], rs[i + 1..]);
    ScannedFilesAppend(rs[..i], [x]);
    ScannedFilesAppend(rs[..i], rs[i + 1..]);
    assert [x][..0] == [];
    assert ScannedFiles([x]) == RootFiles(x);
    var sa, sx, sb := ScannedFiles(rs[..i]), RootFiles(x), ScannedFiles(rs[i + 1..]);
    SizesOfAppend(sa + sx, sb);
    SizesOfAppend(sa, sx);
    SizesOfAppend(sa, sb);
  }

  /**
   Scanning the same roots in another order inserts the same multiset of sizes:
   every size occurs equally often.
   */
  lemma {:induction false} RootOrderKeepsSizes(r1: seq<Root>, r2: seq<Root>)
    requires multiset(r1) == multiset(r2)
    ensures SizeBag(r1) == SizeBag(r2)
    decreases |r1|
  {
    if r1 == [] {
      assert |r2| == |multiset(r2)| == 0;
    } else {
      var n := |r1| - 1;
      var x := r1[n];
      assert r1[..n] + r1[n + 1..] == r1[..n];
      assert x in multiset(r2);
      var i :| 0 <= i < |r2| && r2[i] == x;
      var rest := r2[..i] + r2[i + 1..];
      assert multiset(r1[..n]) == multiset(rest) by {
        assert r1 == r1[..n] + [x];
        assert r2 == r2[..i] + [x] + r2[i + 1..];
        assert multiset(rest) == multiset(r2[..i]) + multiset(r2[i + 1..]);
        assert multiset(r1[..n]) == multiset(r1) - multiset{x};
        assert multiset(rest) == multiset(r2) - multiset{x};
      }
      RootOrderKeepsSizes(r1[..n], rest);
      SizeBagWithout(r1, n);
      SizeBagWithout(r2, i);
    }
  }

  lemma {:induction false} TotalSizeAppend(a: seq<FileRecord>, b: seq<FileRecord>)
    ensures TotalSize(a + b) == TotalSize(a) + TotalSize(b)
    decreases |b|
  {
    if b != [] {
      var n := |b| - 1;
      assert (a + b)[..|a + b| - 1] == a + b[..n];
      TotalSizeAppend(a, b[..n]);
    } else {
      assert a + b == a;
    }
  }
}
