/** An abstract directory tree: the files under the chosen root, in the
    order a top-down directory walk discovers them, together with the names
    of the sub-directories that sit directly in the root. */
module Volumes {

  /** The directory of a file relative to the root; `Root` is the root itself. */
  const Root: string := ""

  datatype FilePath = FilePath(dir: string, name: string)

  /** One directory entry found by the walk. `size` stands for the file's
      bytes; `regular` is false for entries that are not regular files
      (the walk lists them, the regular-file test rejects them). */
  datatype FileRecord = FileRecord(path: FilePath, size: nat, regular: bool)

  /** `present` says whether the root directory exists at all. */
  datatype Volume = Volume(present: bool, files: seq<FileRecord>, rootDirs: set<string>)

  predicate AtRoot(f: FileRecord) {
    f.path.dir == Root
  }

  function Paths(files: seq<FileRecord>): (ps: set<FilePath>)
    ensures forall f :: f in files ==> f.path in ps
  {
    set f | f in files :: f.path
  }

  /** No two entries of the walk share a path. */
  predicate UniquePaths(files: seq<FileRecord>) {
    forall i, j :: 0 <= i < j < |files| ==> files[i].path != files[j].path
  }

  /** The names taken in the root directory: its sub-directories and the files in it. */
  function Occupied(v: Volume): (occ: set<string>)
    ensures v.rootDirs <= occ
    ensures forall f :: f in v.files && AtRoot(f) ==> f.path.name in occ
  {
    v.rootDirs + set f | f in v.files && AtRoot(f) :: f.path.name
  }

  /** What a real directory tree satisfies: paths are unique, no name in the
      root is both a file and a directory, and a missing root holds nothing. */
  predicate WellFormed(v: Volume) {
    && UniquePaths(v.files)
    && (forall f :: f in v.files && AtRoot(f) ==> f.path.name !in v.rootDirs)
    && (!v.present ==> v.files == [] && v.rootDirs == {})
  }

  /** The walk after the files at the paths in `gone` have been removed. */
  function Without(files: seq<FileRecord>, gone: set<FilePath>): (r: seq<FileRecord>)
    ensures forall f :: f in r <==> f in files && f.path !in gone
    ensures |r| <= |files|
  {
    if files == [] then []
    else if files[|files| - 1].path in gone then Without(files[..|files| - 1], gone)
    else Without(files[..|files| - 1], gone) + [files[|files| - 1]]
  }

  lemma {:induction false} WithoutAppend(a: seq<FileRecord>, b: seq<FileRecord>, gone: set<FilePath>)
    ensures Without(a + b, gone) == Without(a, gone) + Without(b, gone)
    decreases |b|
  {
    if b == [] {
      assert a + b == a;
    } else {
      var n := |b| - 1;
      assert (a + b)[..|a + b| - 1] == a + b[..n];
      WithoutAppend(a, b[..n], gone);
    }
  }

  lemma {:induction false} WithoutWithout(files: seq<FileRecord>, a: set<FilePath>, b: set<FilePath>)
    ensures Without(Without(files, a), b) == Without(files, a + b)
    decreases |files|
  {
    if files != [] {
      WithoutWithout(files[..|files| - 1], a, b);
    }
  }

  lemma {:induction false} WithoutNothing(files: seq<FileRecord>, gone: set<FilePath>)
    requires gone !! Paths(files)
    ensures Without(files, gone) == files
    decreases |files|
  {
    if files != [] {
      var n := |files| - 1;
      assert Paths(files[..n]) <= Paths(files);
      WithoutNothing(files[..n], gone);
      assert files[..n] + [files[n]] == files;
    }
  }

  /** Removing files keeps the walk order and the uniqueness of paths. */
  lemma {:induction false} WithoutUnique(files: seq<FileRecord>, gone: set<FilePath>)
    requires UniquePaths(files)
    ensures UniquePaths(Without(files, gone))
    decreases |files|
  {
    if files != [] {
      var n := |files| - 1;
      var init := files[..n];
      UniquePrefix(files, n);
      WithoutUnique(init, gone);
      if files[n].path !in gone {
        var r := Without(init, gone);
        forall f | f in r ensures f.path != files[n].path {
          var i :| 0 <= i < n && init[i] == f;
          assert files[i] == f;
        }
        SnocUnique(r, files[n]);
      }
    }
  }

  lemma UniquePrefix(files: seq<FileRecord>, n: nat)
    requires UniquePaths(files) && n <= |files|
    ensures UniquePaths(files[..n])
  {
    forall i, j | 0 <= i < j < n ensures files[..n][i].path != files[..n][j].path {
      assert files[..n][i] == files[i] && files[..n][j] == files[j];
    }
  }

  /** With unique paths, the files after the first are all but the first. */
  lemma InTail(files: seq<FileRecord>, f: FileRecord)
    requires UniquePaths(files) && f in files
    ensures f in files[1..] <==> f != files[0]
  {
    var i :| 0 <= i < |files| && files[i] == f;
    if i > 0 {
      assert files[1..][i - 1] == f;
      assert files[i].path != files[0].path;
    } else {
      forall j | 0 <= j < |files| - 1 ensures files[1..][j] != f {
        assert files[1..][j] == files[j + 1];
      }
    }
  }

  /** Appending a file whose path is new keeps paths unique. */
  lemma SnocUnique(s: seq<FileRecord>, x: FileRecord)
    requires UniquePaths(s)
    requires forall f :: f in s ==> f.path != x.path
    ensures UniquePaths(s + [x])
  {
    forall i, j | 0 <= i < j < |s| + 1 ensures (s + [x])[i].path != (s + [x])[j].path {
      if j == |s| {
        assert (s + [x])[i] == s[i];
        assert s[i] in s;
      }
    }
  }

  lemma WithoutPaths(files: seq<FileRecord>, gone: set<FilePath>)
    ensures Paths(Without(files, gone)) == Paths(files) - gone
  {
    var r := Without(files, gone);
    forall p | p in Paths(files) - gone ensures p in Paths(r) {
      var f :| f in files && f.path == p;
    }
  }

  lemma PathsAppend(a: seq<FileRecord>, b: seq<FileRecord>)
    ensures Paths(a + b) == Paths(a) + Paths(b)
  {
    forall p | p in Paths(a + b) ensures p in Paths(a) + Paths(b) {
      var f :| f in a + b && f.path == p;
    }
  }

  /** Two batches of removals, one after the other, remove what the joined batch removes. */
  lemma WithoutBatches(files: seq<FileRecord>, a: seq<FileRecord>, b: seq<FileRecord>, failing: set<FilePath>)
    ensures Without(Without(files, Paths(a) - failing), Paths(b) - failing) == Without(files, Paths(a + b) - failing)
  {
    WithoutWithout(files, Paths(a) - failing, Paths(b) - failing);
    PathsAppend(a, b);
    assert (Paths(a) - failing) + (Paths(b) - failing) == Paths(a + b) - failing;
  }

  /** Removing every path but that of the first file leaves the first file alone. */
  lemma {:induction false} WithoutHeadOnly(files: seq<FileRecord>, gone: set<FilePath>)
    requires files != [] && files[0].path !in gone && Paths(files[1..]) <= gone
    ensures Without(files, gone) == [files[0]]
    decreases |files|
  {
    var n := |files| - 1;
    if n == 0 {
      assert files[..0] == [];
    } else {
      var init := files[..n];
      assert files[n] in files[1..];
      assert Paths(init[1..]) <= gone by {
        assert init[1..] == files[1..n];
        forall f | f in files[1..n] ensures f in files[1..] {
        }
      }
      WithoutHeadOnly(init, gone);
    }
  }
}
