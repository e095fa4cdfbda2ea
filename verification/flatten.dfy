/** The flattener: every file of the walk that is not already in the root is
    renamed into the root, under the first name that does not exist there. */
module Flatten {
  import opened Volumes
  import opened FileNames

  /** The walk's files after the moves, in walk order, when `occupied` holds
      the names taken in the root before the first of them is handled. */
  function FlattenFrom(files: seq<FileRecord>, occupied: set<string>): (r: seq<FileRecord>)
    ensures |r| == |files|
  {
    if files == [] then []
    else
      var f := files[0];
      if AtRoot(f) then [f] + FlattenFrom(files[1..], occupied)
      else
        var target := FreeFrom(occupied, f.path.name, 1);
        [f.(path := FilePath(Root, target))] + FlattenFrom(files[1..], occupied + {target})
  }

  /** Every file ends up in the root with its size and kind; files already
      in the root are left as they are. */
  lemma {:induction false} FlattenFromShape(files: seq<FileRecord>, occupied: set<string>)
    ensures forall i :: 0 <= i < |files| ==>
      var r := FlattenFrom(files, occupied);
      AtRoot(r[i]) && r[i].size == files[i].size && r[i].regular == files[i].regular
    ensures forall i :: 0 <= i < |files| && AtRoot(files[i]) ==> FlattenFrom(files, occupied)[i] == files[i]
    decreases |files|
  {
    if files != [] {
      var f := files[0];
      var occ' := if AtRoot(f) then occupied else occupied + {FreeFrom(occupied, f.path.name, 1)};
      FlattenFromShape(files[1..], occ');
      var r := FlattenFrom(files, occupied);
      forall i | 1 <= i < |files| ensures r[i] == FlattenFrom(files[1..], occ')[i - 1] && files[i] == files[1..][i - 1] {
      }
    }
  }

  /** The volume after flattening: a walk of a missing root finds nothing;
      otherwise the files move and the sub-directories stay where they are. */
  function Flattened(v: Volume): (r: Volume)
    ensures r.present == v.present && r.rootDirs == v.rootDirs
    ensures |r.files| == |v.files|
  {
    if !v.present then v
    else v.(files := FlattenFrom(v.files, Occupied(v)))
  }

  /** Moving the file at `i` of the walk into the root under `target` adds
      `target` to the names taken in the root. */
  lemma OccupiedAfterMove(v: Volume, i: nat, target: string)
    requires i < |v.files| && !AtRoot(v.files[i])
    ensures Occupied(v.(files := v.files[i := v.files[i].(path := FilePath(Root, target))])) == Occupied(v) + {target}
  {
    var moved := v.files[i].(path := FilePath(Root, target));
    var w := v.(files := v.files[i := moved]);
    forall n | n in Occupied(w) ensures n in Occupied(v) + {target} {
      if n !in v.rootDirs {
        var f :| f in w.files && AtRoot(f) && f.path.name == n;
        var j :| 0 <= j < |w.files| && w.files[j] == f;
        if j != i {
          assert v.files[j] == f;
        }
      }
    }
    forall n | n in Occupied(v) + {target} ensures n in Occupied(w) {
      if n == target {
        assert w.files[i] == moved;
      } else if n !in v.rootDirs {
        var f :| f in v.files && AtRoot(f) && f.path.name == n;
        var j :| 0 <= j < |v.files| && v.files[j] == f;
        assert w.files[j] == f;
      }
    }
  }

  /** The flatten loop. The walk is the one taken before the first move;
      each file already in the root is skipped, each other one is renamed
      into the root under the first free name, and the root's contents are
      read afresh for every existence test. */
  method MoveFilesToTop(v: Volume) returns (v': Volume)
    ensures v' == Flattened(v)
  {
    if !v.present {
      return v;
    }
    var walk := v.files;
    var files := v.files;
    for i := 0 to |walk|
      invariant |files| == |walk|
      invariant files[i..] == walk[i..]
      invariant FlattenFrom(walk, Occupied(v)) == files[..i] + FlattenFrom(walk[i..], Occupied(v.(files := files)))
    {
      var f := walk[i];
      if !AtRoot(f) {
        var target := FindFreeName(Occupied(v.(files := files)), f.path.name);
        RenameStep(v, files, walk, i, target);
        files := files[i := f.(path := FilePath(Root, target))];
      } else {
        SkipStep(v, files, walk, i);
      }
    }
    assert files[..|walk|] == files;
    v' := v.(files := files);
  }

  /** One rename of the flatten loop keeps its invariant. */
  lemma RenameStep(v: Volume, files: seq<FileRecord>, walk: seq<FileRecord>, i: nat, target: string)
    requires |files| == |walk| && i < |walk| && files[i..] == walk[i..] && !AtRoot(walk[i])
    requires target == FreeFrom(Occupied(v.(files := files)), walk[i].path.name, 1)
    ensures files[i := walk[i].(path := FilePath(Root, target))][i + 1..] == walk[i + 1..]
    ensures files[..i] + FlattenFrom(walk[i..], Occupied(v.(files := files))) ==
      files[i := walk[i].(path := FilePath(Root, target))][..i + 1] +
      FlattenFrom(walk[i + 1..], Occupied(v.(files := files[i := walk[i].(path := FilePath(Root, target))])))
  {
    var moved := walk[i].(path := FilePath(Root, target));
    var files' := files[i := moved];
    var occ := Occupied(v.(files := files));
    var rest := FlattenFrom(walk[i + 1..], occ + {target});
    assert files[i] == walk[i];
    assert FlattenFrom(walk[i..], occ) == [moved] + rest by {
      assert walk[i..] == [walk[i]] + walk[i + 1..];
    }
    assert Occupied(v.(files := files')) == occ + {target} by {
      OccupiedAfterMove(v.(files := files), i, target);
    }
    assert files'[..i + 1] == files[..i] + [moved];
    assert files[..i] + ([moved] + rest) == (files[..i] + [moved]) + rest;
    assert files'[i + 1..] == files[i + 1..];
  }

  /** Skipping a file already in the root keeps the move loop's invariant. */
  lemma SkipStep(v: Volume, files: seq<FileRecord>, walk: seq<FileRecord>, i: nat)
    requires |files| == |walk| && i < |walk| && files[i..] == walk[i..] && AtRoot(walk[i])
    ensures files[i + 1..] == walk[i + 1..]
    ensures files[..i] + FlattenFrom(walk[i..], Occupied(v.(files := files))) ==
      files[..i + 1] + FlattenFrom(walk[i + 1..], Occupied(v.(files := files)))
  {
    var occ := Occupied(v.(files := files));
    assert files[i] == walk[i];
    assert FlattenFrom(walk[i..], occ) == [walk[i]] + FlattenFrom(walk[i + 1..], occ) by {
      assert walk[i..] == [walk[i]] + walk[i + 1..];
    }
    assert files[..i + 1] == files[..i] + [walk[i]];
  }

  // ---------------------------------------------------------------------
  // What flattening promises

  /** No name is chosen twice and no moved file takes a name that was
      already taken: the walk's files keep distinct paths. */
  lemma {:induction false} FlattenFromFresh(files: seq<FileRecord>, occupied: set<string>)
    requires UniquePaths(files)
    requires forall f :: f in files && AtRoot(f) ==> f.path.name in occupied
    ensures UniquePaths(FlattenFrom(files, occupied))
    ensures forall i :: 0 <= i < |files| && !AtRoot(files[i]) ==> FlattenFrom(files, occupied)[i].path.name !in occupied
    decreases |files|
  {
    if files != [] {
      var f := files[0];
      var r := FlattenFrom(files, occupied);
      var occ' := if AtRoot(f) then occupied else occupied + {FreeFrom(occupied, f.path.name, 1)};
      var rest := FlattenFrom(files[1..], occ');
      assert UniquePaths(files[1..]) by {
        forall i, j | 0 <= i < j < |files| - 1 ensures files[1..][i].path != files[1..][j].path {
          assert files[1..][i] == files[i + 1] && files[1..][j] == files[j + 1];
        }
      }
      FlattenFromFresh(files[1..], occ');
      FlattenFromShape(files[1..], occ');
      assert r == [r[0]] + rest;
      forall j | 0 <= j < |rest| ensures rest[j].path != r[0].path {
        assert files[1..][j] == files[j + 1];
        if AtRoot(files[j + 1]) {
          assert rest[j] == files[j + 1];
        }
      }
      forall i | 0 <= i < |files| && !AtRoot(files[i]) ensures r[i].path.name !in occupied {
        if i > 0 {
          assert files[1..][i - 1] == files[i];
        }
      }
    }
  }

  /** Flattening overwrites nothing: on a real directory tree the result is
      again one, all of its files sit in the root and no name is shared. */
  lemma FlattenWellFormed(v: Volume)
    requires WellFormed(v)
    ensures WellFormed(Flattened(v))
    ensures forall f :: f in Flattened(v).files ==> AtRoot(f)
  {
    var r := Flattened(v).files;
    FlattenFromFresh(v.files, Occupied(v));
    FlattenFromShape(v.files, Occupied(v));
    forall f | f in r && AtRoot(f) ensures f.path.name !in v.rootDirs {
      var i :| 0 <= i < |r| && r[i] == f;
      if AtRoot(v.files[i]) {
        assert v.files[i] in v.files;
      }
    }
  }

  /** A second flatten changes nothing. */
  lemma FlattenIdempotent(v: Volume)
    ensures Flattened(Flattened(v)) == Flattened(v)
  {
    var once := Flattened(v);
    FlattenFromShape(v.files, Occupied(v));
    FlattenFromShape(once.files, Occupied(once));
  }

  /** A moved file keeps its extension, and its stem only grows by the
      inserted counters. */
  lemma {:induction false} MovedKeepsExtension(files: seq<FileRecord>, occupied: set<string>, i: nat)
    requires i < |files| && !AtRoot(files[i])
    ensures var name := FlattenFrom(files, occupied)[i].path.name;
      SplitExt(name).1 == SplitExt(files[i].path.name).1 &&
      |name| >= |files[i].path.name|
    decreases i
  {
    var f := files[0];
    if i == 0 {
      FreeFromKeepsExtension(occupied, f.path.name, 1);
    } else {
      var occ' := if AtRoot(f) then occupied else occupied + {FreeFrom(occupied, f.path.name, 1)};
      assert files[1..][i - 1] == files[i];
      MovedKeepsExtension(files[1..], occ', i - 1);
      assert FlattenFrom(files, occupied)[i] == FlattenFrom(files[1..], occ')[i - 1];
    }
  }

  /** Two files named "a.txt" in two sub-directories of an empty root end
      up as "a.txt" and "a(1).txt", each with its own size. */
  lemma TwoSameNamedFiles(x: FileRecord, y: FileRecord)
    requires x.path == FilePath("x", "a.txt") && y.path == FilePath("y", "a.txt")
    ensures Flattened(Volume(true, [x, y], {"x", "y"})).files ==
      [x.(path := FilePath(Root, "a.txt")), y.(path := FilePath(Root, "a(1).txt"))]
  {
    var v := Volume(true, [x, y], {"x", "y"});
    assert Occupied(v) == {"x", "y"} by {
      assert !AtRoot(x) && !AtRoot(y);
    }
    var occ := {"x", "y", "a.txt"};
    FreeNameKept({"x", "y"}, "a.txt", 1);
    assert FreeFrom(occ, "a.txt", 1) == "a(1).txt" by {
      SecondCopyName();
    }
    assert [x, y][1..] == [y];
    assert FlattenFrom([y], occ) == [y.(path := FilePath(Root, "a(1).txt"))] by {
      assert [y][1..] == [];
    }
    assert FlattenFrom([x, y], {"x", "y"}) ==
      [x.(path := FilePath(Root, "a.txt"))] + FlattenFrom([y], {"x", "y"} + {"a.txt"});
    assert {"x", "y"} + {"a.txt"} == occ;
  }

  lemma SecondCopyName()
    ensures FreeFrom({"x", "y", "a.txt"}, "a.txt", 1) == "a(1).txt"
  {
    var occ := {"x", "y", "a.txt"};
    FirstSuffix();
    assert "a(1).txt" !in occ;
    assert FreeFrom(occ, "a(1).txt", 2) == "a(1).txt";
  }
}
