/** The duplicate scanner and remover: group the regular files of the walk
    by a key chosen by the criterion, keep the first file of every group
    (the survivor) and try to remove the others, one attempt per file. */
module Dedupe {
  import opened Volumes

  /** Criterion codes handed over by the chooser. */
  const ByName: int := 0
  const BySize: int := 1
  const ByNameAndSize: int := 2

  datatype Key = NameKey(name: string) | SizeKey(size: nat)

  /** The grouping key: the file name under criteria 0 and 2, the size otherwise. */
  function KeyOf(f: FileRecord, criterion: int): (k: Key)
    ensures k.NameKey? <==> criterion == ByName || criterion == ByNameAndSize
    ensures k.NameKey? ==> k.name == f.path.name
    ensures k.SizeKey? ==> k.size == f.size
  {
    if criterion == ByName || criterion == ByNameAndSize then NameKey(f.path.name) else SizeKey(f.size)
  }

  /** Two files share a group exactly when they share a name (criteria 0
      and 2) or a size (any other criterion). */
  lemma SameKey(f: FileRecord, g: FileRecord, criterion: int)
    ensures KeyOf(f, criterion) == KeyOf(g, criterion) <==>
      if criterion == ByName || criterion == ByNameAndSize then f.path.name == g.path.name else f.size == g.size
  {
  }

  /** The list the collection keeps under `key`: the regular files with that
      key, in walk order. */
  function Group(files: seq<FileRecord>, criterion: int, key: Key): (g: seq<FileRecord>)
    ensures forall f :: f in g <==> f in files && f.regular && KeyOf(f, criterion) == key
    ensures |g| <= |files|
  {
    if files == [] then []
    else
      var n := |files| - 1;
      assert files == files[..n] + [files[n]];
      if files[n].regular && KeyOf(files[n], criterion) == key then Group(files[..n], criterion, key) + [files[n]]
      else Group(files[..n], criterion, key)
  }

  /** The keys of the collection in insertion order: each key once, in the
      order of the first regular file that carries it. */
  function KeyOrder(files: seq<FileRecord>, criterion: int): (keys: seq<Key>)
    ensures forall k :: k in keys <==> exists f :: f in files && f.regular && KeyOf(f, criterion) == k
    ensures forall i, j :: 0 <= i < j < |keys| ==> keys[i] != keys[j]
  {
    if files == [] then []
    else
      var n := |files| - 1;
      assert files == files[..n] + [files[n]];
      var keys := KeyOrder(files[..n], criterion);
      if files[n].regular && KeyOf(files[n], criterion) !in keys then keys + [KeyOf(files[n], criterion)]
      else keys
  }

  /** The members of `files` whose size is `size`, in order. */
  function SameSize(files: seq<FileRecord>, size: nat): (r: seq<FileRecord>)
    ensures forall f :: f in r <==> f in files && f.size == size
  {
    if files == [] then []
    else if files[0].size == size then [files[0]] + SameSize(files[1..], size)
    else SameSize(files[1..], size)
  }

  /** The files of one group that are to be removed: everything after the
      survivor, and under criterion 2 only those of the survivor's size. */
  function Candidates(group: seq<FileRecord>, criterion: int): (c: seq<FileRecord>)
    ensures |group| <= 1 ==> c == []
    ensures forall f :: f in c ==> f in group[1..]
    ensures |group| > 1 && criterion != ByNameAndSize ==> c == group[1..]
    ensures |group| > 1 && criterion == ByNameAndSize ==>
      forall f :: f in c <==> f in group[1..] && f.size == group[0].size
  {
    if |group| <= 1 then []
    else if criterion != ByNameAndSize then group[1..]
    else SameSize(group[1..], group[0].size)
  }

  /** The removal attempts for the groups under `keys`, group after group. */
  function PlanOf(files: seq<FileRecord>, criterion: int, keys: seq<Key>): (p: seq<FileRecord>)
    ensures forall f :: f in p ==> f in files && f.regular
  {
    if keys == [] then []
    else
      var n := |keys| - 1;
      PlanOf(files, criterion, keys[..n]) + Candidates(Group(files, criterion, keys[n]), criterion)
  }

  /** Every removal attempt of one run, in the order they are made. */
  function Plan(files: seq<FileRecord>, criterion: int): (p: seq<FileRecord>)
    ensures forall f :: f in p ==> f in files && f.regular
  {
    PlanOf(files, criterion, KeyOrder(files, criterion))
  }

  /** The volume after one run: nothing happens when the root is missing;
      otherwise every planned path goes except those whose removal fails. */
  function Deduped(v: Volume, criterion: int, failing: set<FilePath>): (r: Volume)
    ensures r.present == v.present && r.rootDirs == v.rootDirs
    ensures |r.files| <= |v.files|
  {
    if !v.present then v
    else v.(files := Without(v.files, Paths(Plan(v.files, criterion)) - failing))
  }

  /** Removal keeps a real directory tree one. */
  lemma DedupedWellFormed(v: Volume, criterion: int, failing: set<FilePath>)
    requires WellFormed(v)
    ensures WellFormed(Deduped(v, criterion, failing))
    ensures forall f :: f in Deduped(v, criterion, failing).files ==> f in v.files
  {
    if v.present {
      WithoutUnique(v.files, Paths(Plan(v.files, criterion)) - failing);
    }
  }

  /** The first file of the group `f` belongs to. */
  function SurvivorOf(files: seq<FileRecord>, criterion: int, f: FileRecord): (s: FileRecord)
    requires f in files && f.regular
    ensures s in files && s.regular && KeyOf(s, criterion) == KeyOf(f, criterion)
  {
    var g := Group(files, criterion, KeyOf(f, criterion));
    assert f in g;
    assert g[0] in g;
    g[0]
  }

  /** The survivor is the first file found: when `files[i]` is the first
      regular file of the walk with its key, it heads that key's group and
      survives for every file of the group. */
  lemma {:induction false} SurvivorIsFirstFound(files: seq<FileRecord>, criterion: int, i: nat)
    requires i < |files| && files[i].regular
    requires forall j :: 0 <= j < i ==> !(files[j].regular && KeyOf(files[j], criterion) == KeyOf(files[i], criterion))
    ensures Group(files, criterion, KeyOf(files[i], criterion)) != []
    ensures Group(files, criterion, KeyOf(files[i], criterion))[0] == files[i]
    ensures forall f :: f in files && f.regular && KeyOf(f, criterion) == KeyOf(files[i], criterion) ==>
      SurvivorOf(files, criterion, f) == files[i]
    decreases |files|
  {
    var n := |files| - 1;
    var k := KeyOf(files[i], criterion);
    var init := files[..n];
    if i < n {
      SurvivorIsFirstFound(init, criterion, i);
    } else {
      NoneWithKeyEmptyGroup(init, criterion, k);
    }
  }

  /** A walk with no regular file of key `k` has an empty group for `k`. */
  lemma {:induction false} NoneWithKeyEmptyGroup(files: seq<FileRecord>, criterion: int, k: Key)
    requires forall j :: 0 <= j < |files| ==> !(files[j].regular && KeyOf(files[j], criterion) == k)
    ensures Group(files, criterion, k) == []
    decreases |files|
  {
    if files != [] {
      NoneWithKeyEmptyGroup(files[..|files| - 1], criterion, k);
    }
  }

  // ---------------------------------------------------------------------
  // The imperative run

  /** The outcome of one removal, as the run reports it. */
  datatype Attempt = Removed(path: FilePath) | Failed(path: FilePath)

  /** `log` reports one attempt per entry of `batch`, run on `files`: an
      attempt succeeds iff its path is not failing, exists in `files` and
      was not already taken by an earlier attempt of the batch. */
  predicate AttemptLog(files: seq<FileRecord>, batch: seq<FileRecord>, failing: set<FilePath>, log: seq<Attempt>) {
    && |log| == |batch|
    && forall j :: 0 <= j < |log| ==>
         && log[j].path == batch[j].path
         && (log[j].Removed? <==>
              batch[j].path !in failing && batch[j].path in Paths(files) && batch[j].path !in Paths(batch[..j]))
  }

  /** The log of a batch run after another batch continues that batch's log. */
  lemma AttemptLogAppend(files: seq<FileRecord>, a: seq<FileRecord>, b: seq<FileRecord>, failing: set<FilePath>,
                         logA: seq<Attempt>, logB: seq<Attempt>)
    requires AttemptLog(files, a, failing, logA)
    requires AttemptLog(Without(files, Paths(a) - failing), b, failing, logB)
    ensures AttemptLog(files, a + b, failing, logA + logB)
  {
    var ab, log := a + b, logA + logB;
    WithoutPaths(files, Paths(a) - failing);
    forall j | 0 <= j < |log|
      ensures log[j].path == ab[j].path
      ensures log[j].Removed? <==> ab[j].path !in failing && ab[j].path in Paths(files) && ab[j].path !in Paths(ab[..j])
    {
      if j < |a| {
        assert ab[..j] == a[..j];
      } else {
        var k := j - |a|;
        assert ab[..j] == a + b[..k];
        PathsAppend(a, b[..k]);
      }
    }
  }

  /** The collection after the walk `files`: each regular file appended to
      the list under its key, a missing key starting an empty list. */
  function Collection(files: seq<FileRecord>, criterion: int): (c: map<Key, seq<FileRecord>>)
    ensures forall k :: k in c ==> c[k] != []
  {
    if files == [] then map[]
    else
      var n := |files| - 1;
      var c := Collection(files[..n], criterion);
      var key := KeyOf(files[n], criterion);
      if files[n].regular then c[key := (if key in c then c[key] else []) + [files[n]]] else c
  }

  /** The collection holds exactly the keys of the key order, and under each
      key its group. */
  lemma {:induction false} CollectionGroups(files: seq<FileRecord>, criterion: int)
    ensures forall k :: k in Collection(files, criterion) <==> k in KeyOrder(files, criterion)
    ensures forall k :: k in Collection(files, criterion) ==> Collection(files, criterion)[k] == Group(files, criterion, k)
    decreases |files|
  {
    if files != [] {
      var n := |files| - 1;
      var c := Collection(files[..n], criterion);
      CollectionGroups(files[..n], criterion);
      forall k | k in Collection(files, criterion) ensures Collection(files, criterion)[k] == Group(files, criterion, k) {
        if k !in c {
          NewKeyEmptyGroup(files[..n], criterion, k);
        }
      }
    }
  }

  lemma {:induction false} CollectionKeys(files: seq<FileRecord>, criterion: int, k: Key)
    ensures k in Collection(files, criterion) <==> k in KeyOrder(files, criterion)
    decreases |files|
  {
    if files != [] {
      CollectionKeys(files[..|files| - 1], criterion, k);
    }
  }

  /** A key that no regular file carries has an empty group. */
  lemma {:induction false} NewKeyEmptyGroup(files: seq<FileRecord>, criterion: int, k: Key)
    requires k !in KeyOrder(files, criterion)
    ensures Group(files, criterion, k) == []
    decreases |files|
  {
    if files != [] {
      NewKeyEmptyGroup(files[..|files| - 1], criterion, k);
    }
  }

  /** The collection loop: one pass over the walk, appending each regular
      file to the list of its key and remembering keys in insertion order. */
  method Collect(files: seq<FileRecord>, criterion: int) returns (order: seq<Key>, collection: map<Key, seq<FileRecord>>)
    ensures order == KeyOrder(files, criterion)
    ensures collection == Collection(files, criterion)
    ensures forall k :: k in collection <==> k in order
    ensures forall k :: k in collection ==> collection[k] == Group(files, criterion, k)
  {
    order, collection := [], map[];
    var i := 0;
    while i < |files|
      invariant 0 <= i <= |files|
      invariant order == KeyOrder(files[..i], criterion)
      invariant collection == Collection(files[..i], criterion)
    {
      var f := files[i];
      assert files[..i + 1][..i] == files[..i];
      if f.regular {
        var key := KeyOf(f, criterion);
        CollectionKeys(files[..i], criterion, key);
        if key !in collection {
          order := order + [key];
          collection := collection[key := []];
        }
        collection := collection[key := collection[key] + [f]];
      }
      i := i + 1;
    }
    assert files[..i] == files;
    CollectionGroups(files, criterion);
  }

  /** One removal per entry of `toDelete`, each in its own guard: a removal
      fails when the path is in `failing` or no longer exists, and the loop
      goes on with the next entry either way. */
  method RemoveEach(files: seq<FileRecord>, toDelete: seq<FileRecord>, failing: set<FilePath>)
    returns (remaining: seq<FileRecord>, log: seq<Attempt>)
    ensures remaining == Without(files, Paths(toDelete) - failing)
    ensures AttemptLog(files, toDelete, failing, log)
  {
    remaining, log := files, [];
    WithoutNothing(files, {});
    assert Paths(toDelete[..0]) - failing == {};
    for j := 0 to |toDelete|
      invariant remaining == Without(files, Paths(toDelete[..j]) - failing)
      invariant AttemptLog(files, toDelete[..j], failing, log)
    {
      var p := toDelete[j].path;
      AttemptStep(files, toDelete[..j], toDelete[j], failing, remaining, log);
      if p in failing || p !in Paths(remaining) {
        log := log + [Failed(p)];
      } else {
        remaining := Without(remaining, {p});
        log := log + [Removed(p)];
      }
      assert toDelete[..j + 1] == toDelete[..j] + [toDelete[j]];
    }
    assert toDelete[..|toDelete|] == toDelete;
  }

  /** One removal attempt after the batch `done`: it succeeds iff the path is
      not failing and still exists, and either way the batch goes on. */
  lemma AttemptStep(files: seq<FileRecord>, done: seq<FileRecord>, x: FileRecord, failing: set<FilePath>,
                    remaining: seq<FileRecord>, log: seq<Attempt>)
    requires remaining == Without(files, Paths(done) - failing)
    requires AttemptLog(files, done, failing, log)
    ensures x.path in failing || x.path !in Paths(remaining) ==>
      && remaining == Without(files, Paths(done + [x]) - failing)
      && AttemptLog(files, done + [x], failing, log + [Failed(x.path)])
    ensures x.path !in failing && x.path in Paths(remaining) ==>
      && Without(remaining, {x.path}) == Without(files, Paths(done + [x]) - failing)
      && AttemptLog(files, done + [x], failing, log + [Removed(x.path)])
  {
    var p := x.path;
    var attempt := if p in failing || p !in Paths(remaining) then Failed(p) else Removed(p);
    assert AttemptLog(remaining, [x], failing, [attempt]) by {
      assert [x][..0] == [];
    }
    AttemptLogAppend(files, done, [x], failing, log, [attempt]);
    WithoutBatches(files, done, [x], failing);
    assert Paths([x]) - failing == if p in failing then {} else {p};
    if p in failing || p !in Paths(remaining) {
      WithoutNothing(remaining, Paths([x]) - failing);
    }
  }

  /** The whole scanner and remover. When the root is missing it returns
      before touching anything. */
  method DeleteDuplicateFiles(v: Volume, criterion: int, failing: set<FilePath>)
    returns (v': Volume, log: seq<Attempt>)
    ensures v' == Deduped(v, criterion, failing)
    ensures !v.present ==> log == []
    ensures v.present ==> AttemptLog(v.files, Plan(v.files, criterion), failing, log)
  {
    if !v.present {
      return v, [];
    }
    var order, collection := Collect(v.files, criterion);
    var remaining;
    remaining, log := RemoveGroups(v.files, criterion, order, collection, failing);
    v' := v.(files := remaining);
  }

  /** The deletion loop: the groups in insertion order, and within each group
      of more than one file the candidates, one removal attempt each. */
  method RemoveGroups(files: seq<FileRecord>, criterion: int, order: seq<Key>, collection: map<Key, seq<FileRecord>>,
                      failing: set<FilePath>)
    returns (remaining: seq<FileRecord>, log: seq<Attempt>)
    requires forall k :: k in order ==> k in collection && collection[k] == Group(files, criterion, k)
    ensures remaining == Without(files, Paths(PlanOf(files, criterion, order)) - failing)
    ensures AttemptLog(files, PlanOf(files, criterion, order), failing, log)
  {
    remaining, log := files, [];
    WithoutNothing(files, {});
    assert Paths(PlanOf(files, criterion, order[..0])) - failing == {};
    for i := 0 to |order|
      invariant remaining == Without(files, Paths(PlanOf(files, criterion, order[..i])) - failing)
      invariant AttemptLog(files, PlanOf(files, criterion, order[..i]), failing, log)
    {
      ghost var done := PlanOf(files, criterion, order[..i]);
      var group := collection[order[i]];
      var toDelete := Candidates(group, criterion);
      PlanOfPrefix(files, criterion, order, i);
      if |group| > 1 {
        var remaining', groupLog := RemoveEach(remaining, toDelete, failing);
        BatchStep(files, done, toDelete, failing, remaining, log, remaining', groupLog);
        remaining, log := remaining', log + groupLog;
      } else {
        assert done + toDelete == done;
      }
    }
    assert order[..|order|] == order;
  }

  /** The plan for one more key is the plan so far and that key's candidates. */
  lemma PlanOfPrefix(files: seq<FileRecord>, criterion: int, order: seq<Key>, i: nat)
    requires i < |order|
    ensures PlanOf(files, criterion, order[..i + 1]) ==
      PlanOf(files, criterion, order[..i]) + Candidates(Group(files, criterion, order[i]), criterion)
  {
    PlanOfSnoc(files, criterion, order[..i], order[i]);
    assert order[..i + 1] == order[..i] + [order[i]];
  }

  /** A batch of attempts run on what earlier batches left continues their
      removals and their log. */
  lemma BatchStep(files: seq<FileRecord>, done: seq<FileRecord>, batch: seq<FileRecord>, failing: set<FilePath>,
                  remaining: seq<FileRecord>, log: seq<Attempt>, remaining': seq<FileRecord>, batchLog: seq<Attempt>)
    requires remaining == Without(files, Paths(done) - failing)
    requires AttemptLog(files, done, failing, log)
    requires remaining' == Without(remaining, Paths(batch) - failing)
    requires AttemptLog(remaining, batch, failing, batchLog)
    ensures remaining' == Without(files, Paths(done + batch) - failing)
    ensures AttemptLog(files, done + batch, failing, log + batchLog)
  {
    WithoutBatches(files, done, batch, failing);
    AttemptLogAppend(files, done, batch, failing, log, batchLog);
  }

  lemma PlanOfSnoc(files: seq<FileRecord>, criterion: int, keys: seq<Key>, key: Key)
    ensures PlanOf(files, criterion, keys + [key]) == PlanOf(files, criterion, keys) + Candidates(Group(files, criterion, key), criterion)
  {
    assert (keys + [key])[..|keys|] == keys;
  }

  // ---------------------------------------------------------------------
  // What a run deletes and what it keeps

  lemma {:induction false} GroupUnique(files: seq<FileRecord>, criterion: int, key: Key)
    requires UniquePaths(files)
    ensures UniquePaths(Group(files, criterion, key))
    decreases |files|
  {
    if files != [] {
      var n := |files| - 1;
      var init := files[..n];
      UniquePrefix(files, n);
      GroupUnique(init, criterion, key);
      var g := Group(init, criterion, key);
      if files[n].regular && KeyOf(files[n], criterion) == key {
        forall f | f in g ensures f.path != files[n].path {
          var i :| 0 <= i < n && init[i] == f;
          assert files[i] == f;
        }
        SnocUnique(g, files[n]);
      }
    }
  }

  /** A planned removal is a regular file of the group of its own key. */
  lemma {:induction false} PlanOfMembership(files: seq<FileRecord>, criterion: int, keys: seq<Key>, f: FileRecord)
    ensures f in PlanOf(files, criterion, keys) <==>
      KeyOf(f, criterion) in keys && f in Candidates(Group(files, criterion, KeyOf(f, criterion)), criterion)
    decreases |keys|
  {
    if keys != [] {
      var n := |keys| - 1;
      PlanOfMembership(files, criterion, keys[..n], f);
      assert keys == keys[..n] + [keys[n]];
      var c := Candidates(Group(files, criterion, keys[n]), criterion);
      if f in c {
        assert f in Group(files, criterion, keys[n]);
      }
    }
  }

  /** Exactly the files a run tries to remove: a regular file is planned for
      removal iff it is not the first of its group and, under criterion 2,
      has the size of that first file. */
  lemma PlanMembership(files: seq<FileRecord>, criterion: int, f: FileRecord)
    requires UniquePaths(files)
    ensures f in Plan(files, criterion) <==>
      f in files && f.regular &&
      var s := SurvivorOf(files, criterion, f);
      f != s && (criterion == ByNameAndSize ==> f.size == s.size)
  {
    PlanOfMembership(files, criterion, KeyOrder(files, criterion), f);
    if f in files && f.regular {
      var g := Group(files, criterion, KeyOf(f, criterion));
      GroupUnique(files, criterion, KeyOf(f, criterion));
      InTail(g, f);
    }
  }

  lemma UniqueRecord(files: seq<FileRecord>, f: FileRecord, g: FileRecord)
    requires UniquePaths(files) && f in files && g in files && f.path == g.path
    ensures f == g
  {
    var i :| 0 <= i < |files| && files[i] == f;
    var j :| 0 <= j < |files| && files[j] == g;
    assert i == j;
  }

  /** Removal is by path; on a walk with unique paths, a file's path is
      planned exactly when the file itself is. */
  lemma PlannedPath(files: seq<FileRecord>, criterion: int, f: FileRecord)
    requires UniquePaths(files) && f in files
    ensures f.path in Paths(Plan(files, criterion)) <==> f in Plan(files, criterion)
  {
    if f.path in Paths(Plan(files, criterion)) {
      var h :| h in Plan(files, criterion) && h.path == f.path;
      PlanMembership(files, criterion, h);
      UniqueRecord(files, h, f);
    }
  }

  /** The first file of every group is never planned for removal, so it
      survives whatever removals fail. */
  lemma SurvivorKept(v: Volume, criterion: int, failing: set<FilePath>, f: FileRecord)
    requires WellFormed(v) && f in v.files && f.regular
    ensures SurvivorOf(v.files, criterion, f) in Deduped(v, criterion, failing).files
  {
    var s := SurvivorOf(v.files, criterion, f);
    PlanMembership(v.files, criterion, s);
    PlannedPath(v.files, criterion, s);
  }

  /** Under criterion 2 a same-named file whose size differs from the
      survivor's stays, whatever else the group holds. */
  lemma DifferentSizeKept(v: Volume, failing: set<FilePath>, f: FileRecord)
    requires WellFormed(v) && f in v.files && f.regular
    requires f.size != SurvivorOf(v.files, ByNameAndSize, f).size
    ensures f in Deduped(v, ByNameAndSize, failing).files
  {
    PlanMembership(v.files, ByNameAndSize, f);
    PlannedPath(v.files, ByNameAndSize, f);
  }

  /** Which files a run leaves: a file stays iff it is not a regular file,
      it is the first of its group, under criterion 2 its size differs from
      the first's, or its removal failed. */
  lemma Survivors(v: Volume, criterion: int, failing: set<FilePath>, f: FileRecord)
    requires WellFormed(v) && v.present
    ensures f in Deduped(v, criterion, failing).files <==>
      f in v.files &&
      (!f.regular || f.path in failing ||
       var s := SurvivorOf(v.files, criterion, f);
       f == s || (criterion == ByNameAndSize && f.size != s.size))
  {
    PlanMembership(v.files, criterion, f);
    if f in v.files {
      PlannedPath(v.files, criterion, f);
    }
  }

  // ---------------------------------------------------------------------
  // A second run deletes nothing

  lemma {:induction false} GroupWithout(files: seq<FileRecord>, criterion: int, key: Key, gone: set<FilePath>)
    ensures Group(Without(files, gone), criterion, key) == Without(Group(files, criterion, key), gone)
    decreases |files|
  {
    if files != [] {
      var n := |files| - 1;
      GroupWithout(files[..n], criterion, key, gone);
      var last := files[n];
      var keep := Without(files[..n], gone);
      if last.path !in gone {
        var r := keep + [last];
        assert r[..|r| - 1] == keep;
        if last.regular && KeyOf(last, criterion) == key {
          var g := Group(files[..n], criterion, key) + [last];
          assert g[..|g| - 1] == Group(files[..n], criterion, key);
        }
      } else if last.regular && KeyOf(last, criterion) == key {
        var g := Group(files[..n], criterion, key) + [last];
        assert g[..|g| - 1] == Group(files[..n], criterion, key);
      }
    }
  }

  /** Removing other files keeps the survivor at the head of its group. */
  lemma HeadKept(g: seq<FileRecord>, gone: set<FilePath>)
    requires g != [] && g[0].path !in gone
    ensures Without(g, gone) != [] && Without(g, gone)[0] == g[0]
  {
    assert g == [g[0]] + g[1..];
    WithoutAppend([g[0]], g[1..], gone);
    assert Without([g[0]], gone) == [g[0]];
  }

  /** Deduplication leaves no duplicates behind: planning again on the files
      a failure-free run leaves yields no removal at all. */
  lemma PlanOfSurvivorsEmpty(files: seq<FileRecord>, criterion: int)
    requires UniquePaths(files)
    ensures Plan(Without(files, Paths(Plan(files, criterion))), criterion) == []
  {
    var gone := Paths(Plan(files, criterion));
    var rest := Without(files, gone);
    WithoutUnique(files, gone);
    var p := Plan(rest, criterion);
    if p != [] {
      var f := p[0];
      PlanMembership(rest, criterion, f);
      var key := KeyOf(f, criterion);
      var s := SurvivorOf(files, criterion, f);
      // the survivor of f's group is kept and stays first in the new group
      PlanMembership(files, criterion, s);
      PlannedPath(files, criterion, s);
      GroupWithout(files, criterion, key, gone);
      HeadKept(Group(files, criterion, key), gone);
      assert SurvivorOf(rest, criterion, f) == s;
      // f itself was kept, so it was not planned the first time
      PlanMembership(files, criterion, f);
      PlannedPath(files, criterion, f);
      assert false;
    }
  }

  /** A second run right after a failure-free one removes nothing. */
  lemma DedupeIdempotent(v: Volume, criterion: int, failing: set<FilePath>)
    requires WellFormed(v)
    ensures Deduped(Deduped(v, criterion, {}), criterion, failing) == Deduped(v, criterion, {})
  {
    if v.present {
      var gone := Paths(Plan(v.files, criterion));
      assert gone - {} == gone;
      var rest := Without(v.files, gone);
      assert Deduped(v, criterion, {}) == v.(files := rest);
      PlanOfSurvivorsEmpty(v.files, criterion);
      assert Plan(rest, criterion) == [];
      assert Paths(Plan(rest, criterion)) - failing == {};
      WithoutNothing(rest, {});
    }
  }

  /** Under criterion 0 or 1 the first file of a group keeps its path and
      every later one is planned for removal. */
  lemma GroupPlanned(files: seq<FileRecord>, criterion: int, key: Key)
    requires UniquePaths(files) && criterion != ByNameAndSize
    requires Group(files, criterion, key) != []
    ensures Group(files, criterion, key)[0].path !in Paths(Plan(files, criterion))
    ensures Paths(Group(files, criterion, key)[1..]) <= Paths(Plan(files, criterion))
  {
    var g := Group(files, criterion, key);
    assert g[0] in g;
    var s := g[0];
    assert s == SurvivorOf(files, criterion, s);
    PlanMembership(files, criterion, s);
    PlannedPath(files, criterion, s);
    GroupUnique(files, criterion, key);
    forall h | h in g[1..] ensures h.path in Paths(Plan(files, criterion)) {
      var i :| 1 <= i < |g| && g[i] == h;
      assert g[i].path != g[0].path;
      assert h in g;
      PlanMembership(files, criterion, h);
    }
  }

  lemma GroupLeftWithHead(files: seq<FileRecord>, criterion: int, key: Key)
    requires UniquePaths(files) && criterion != ByNameAndSize
    requires Group(files, criterion, key) != []
    ensures Without(Group(files, criterion, key), Paths(Plan(files, criterion))) == [Group(files, criterion, key)[0]]
  {
    GroupPlanned(files, criterion, key);
    WithoutHeadOnly(Group(files, criterion, key), Paths(Plan(files, criterion)));
  }

  /** With criterion 0 or 1 and no failed removal, every group is left with
      exactly its first file. */
  lemma OneSurvivorPerGroup(v: Volume, criterion: int, key: Key)
    requires WellFormed(v) && v.present && criterion != ByNameAndSize
    requires Group(v.files, criterion, key) != []
    ensures Group(Deduped(v, criterion, {}).files, criterion, key) == [Group(v.files, criterion, key)[0]]
  {
    var gone := Paths(Plan(v.files, criterion));
    assert gone - {} == gone;
    assert Deduped(v, criterion, {}).files == Without(v.files, gone);
    GroupWithout(v.files, criterion, key, gone);
    GroupLeftWithHead(v.files, criterion, key);
  }

}
