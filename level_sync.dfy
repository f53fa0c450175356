/** main.py: one-level synchronisation of `replica` with `source`.
    `sort_dirs` reads the top level of a tree, `comparison` reconciles the
    sub-directory names and the files of that level, and `compare` runs both
    on `source` and `replica`. `compare_dir_names` is an alternative,
    position-by-position reconciliation of directory names that nothing in
    the script calls. */
module LevelSync {
  import opened Fs
  import opened Names
  import opened Listing
  import opened Content

  /** `(dirpath, dirnames, filenames)`, the first triple `os.walk` yields. */
  datatype Level = Level(root: Path, dirs: seq<Name>, files: seq<Name>)

  /** `lv` is the current top level of the directory `lv.root`. */
  ghost predicate Describes(t: Tree, lv: Level)
  {
    IsDir(t, lv.root) && Lists(t, lv.root, Split(lv.dirs, lv.files))
  }

  // ---------------------------------------------------------------------
  // sort_dirs

  /** `sort_dirs(path)`: the top level of `path` with both name lists sorted,
      or `None` when `os.walk` yields nothing, which is when `path` is not a
      directory. */
  method SortDirs(fs: FileSystem, path: Path) returns (r: Option<Level>)
    ensures r.Some? <==> IsDir(fs.entries, path)
    ensures r.Some? ==> r.value.root == path && Describes(fs.entries, r.value)
    ensures r.Some? ==> Sorted(r.value.dirs) && Sorted(r.value.files)
  {
    var scan := ScanDir(fs, path);
    if scan.Failure? {
      return None;
    }
    var dirs := SortNames(scan.value.dirs);
    var files := SortNames(scan.value.files);
    PermutationKeepsDistinct(scan.value.dirs, dirs);
    PermutationKeepsDistinct(scan.value.files, files);
    return Some(Level(path, dirs, files));
  }

  /** Sorting makes the result independent of the order in which the OS
      listed the directory: two listings of the same directory sort alike. */
  lemma {:induction false} SortedLevelUnique(t: Tree, a: Level, b: Level)
    requires a.root == b.root && Describes(t, a) && Describes(t, b)
    requires Sorted(a.dirs) && Sorted(b.dirs) && Sorted(a.files) && Sorted(b.files)
    ensures a == b
  {
    SameNamesSameMultiset(a.dirs, b.dirs);
    SameNamesSameMultiset(a.files, b.files);
    SortedUnique(a.dirs, b.dirs);
    SortedUnique(a.files, b.files);
  }

  lemma SameNamesSameMultiset(a: seq<Name>, b: seq<Name>)
    requires Distinct(a) && Distinct(b)
    requires forall x :: x in a <==> x in b
    ensures multiset(a) == multiset(b)
  {
    DistinctCounts(a);
    DistinctCounts(b);
    forall x ensures multiset(a)[x] == multiset(b)[x] {
      assert x in a <==> x in multiset(a);
      assert x in b <==> x in multiset(b);
    }
  }

  // ---------------------------------------------------------------------
  // compare_dir_names

  /** One element of `zip_longest(src_dirs, rep_dirs, fillvalue=None)`. */
  datatype Pair = Pair(src: Option<Name>, rep: Option<Name>)

  function Head(s: seq<Name>): Option<Name>
  {
    if s == [] then None else Some(s[0])
  }

  function Tail(s: seq<Name>): seq<Name>
  {
    if s == [] then [] else s[1..]
  }

  /** `zip_longest(a, b, fillvalue=None)`: the heads paired, then the
      tails. */
  function ZipLongest(a: seq<Name>, b: seq<Name>): (z: seq<Pair>)
    ensures |z| == if |a| < |b| then |b| else |a|
    decreases |a| + |b|
  {
    if a == [] && b == [] then []
    else [Pair(Head(a), Head(b))] + ZipLongest(Tail(a), Tail(b))
  }

  /** `zip_longest` is as long as the longer list and pairs the elements
      at each position, the shorter list padded with `None`. */
  lemma {:induction false} ZipLongestPairs(a: seq<Name>, b: seq<Name>)
    ensures |ZipLongest(a, b)| == if |a| < |b| then |b| else |a|
    ensures forall i :: 0 <= i < |ZipLongest(a, b)| ==>
              ZipLongest(a, b)[i] == Pair(if i < |a| then Some(a[i]) else None,
                                          if i < |b| then Some(b[i]) else None)
    decreases |a| + |b|
  {
    if a != [] || b != [] {
      var z, rest := ZipLongest(a, b), ZipLongest(Tail(a), Tail(b));
      ZipLongestPairs(Tail(a), Tail(b));
      assert z == [Pair(Head(a), Head(b))] + rest;
      forall i | 0 <= i < |z|
        ensures z[i] == Pair(if i < |a| then Some(a[i]) else None, if i < |b| then Some(b[i]) else None)
      {
        if i > 0 {
          assert z[i] == rest[i - 1];
          assert i < |a| ==> Tail(a)[i - 1] == a[i];
          assert i < |b| ==> Tail(b)[i - 1] == b[i];
        }
      }
    }
  }

  /** One iteration of the loop in `compare_dir_names`: nothing when the two
      names agree, `os.rmdir` of a replica name with no source partner,
      `os.mkdir` of a source name with no replica partner, and otherwise
      `os.rename` of the replica name to the source name. */
  function DirStep(t: Tree, repPath: Path, pr: Pair): (r: Result<Tree>)
    ensures r.Failure? ==> IsOsError(r.error)
    ensures r.Success? ==> forall q :: Get(r.value, q) != Get(t, q) ==>
              (pr.src.Some? && repPath + [pr.src.value] <= q) || (pr.rep.Some? && repPath + [pr.rep.value] <= q)
  {
    if pr.src == pr.rep then Success(t)
    else if pr.src.None? then RmdirOp(t, repPath + [pr.rep.value])
    else if pr.rep.None? then MkdirOp(t, repPath + [pr.src.value])
    else RenameOp(t, repPath + [pr.rep.value], repPath + [pr.src.value])
  }

  /** The steps in order, stopping at the first that raises; the tree then
      holds the effects of the steps before it. */
  function RunDirSteps(t: Tree, repPath: Path, steps: seq<Pair>): (res: (Tree, Outcome))
    ensures res.1.Fail? ==> IsOsError(res.1.error)
    ensures forall q :: Get(res.0, q) != Get(t, q) ==> repPath < q
    decreases |steps|
  {
    if steps == [] then (t, Ok)
    else
      match DirStep(t, repPath, steps[0])
      case Failure(e) => (t, Fail(e))
      case Success(t') => RunDirSteps(t', repPath, steps[1..])
  }

  /** `compare_dir_names(rep_path, src_dirs, rep_dirs)` */
  method CompareDirNames(fs: FileSystem, repPath: Path, srcDirs: seq<Name>, repDirs: seq<Name>) returns (r: Outcome)
    requires fs.Valid()
    modifies fs
    ensures fs.Valid()
    ensures (fs.entries, r) == RunDirSteps(old(fs.entries), repPath, ZipLongest(srcDirs, repDirs))
  {
    var steps := ZipLongest(srcDirs, repDirs);
    var i := 0;
    while i < |steps|
      invariant fs.Valid()
      invariant 0 <= i <= |steps|
      invariant RunDirSteps(old(fs.entries), repPath, steps) == RunDirSteps(fs.entries, repPath, steps[i..])
    {
      assert steps[i..][1..] == steps[i + 1..];
      ghost var before := fs.entries;
      r := ApplyDirStep(fs, repPath, steps[i]);
      RunDirStepsFirst(before, repPath, steps[i..]);
      if r.Fail? {
        return;
      }
      i := i + 1;
    }
    r := Ok;
  }

  /** The body of the loop in `compare_dir_names`, for one pair. */
  method ApplyDirStep(fs: FileSystem, repPath: Path, pr: Pair) returns (r: Outcome)
    requires fs.Valid()
    modifies fs
    ensures fs.Valid()
    ensures r == OutcomeOf(DirStep(old(fs.entries), repPath, pr))
    ensures fs.entries == TreeAfter(old(fs.entries), DirStep(old(fs.entries), repPath, pr))
  {
    r := Ok;
    if pr.src != pr.rep {
      if pr.src.None? {
        r := fs.Rmdir(repPath + [pr.rep.value]);
      } else if pr.rep.None? {
        r := fs.Mkdir(repPath + [pr.src.value]);
      } else {
        r := fs.Rename(repPath + [pr.rep.value], repPath + [pr.src.value]);
      }
    }
  }

  lemma RunDirStepsFirst(t: Tree, repPath: Path, steps: seq<Pair>)
    requires steps != []
    ensures var step := DirStep(t, repPath, steps[0]);
            RunDirSteps(t, repPath, steps) ==
              if step.Failure? then (t, Fail(step.error)) else RunDirSteps(step.value, repPath, steps[1..])
  {
  }

  /** When the two lists agree, `compare_dir_names` changes nothing. */
  lemma {:induction false} CompareDirNamesSameLists(t: Tree, repPath: Path, names: seq<Name>)
    ensures RunDirSteps(t, repPath, ZipLongest(names, names)) == (t, Ok)
  {
    var z := ZipLongest(names, names);
    ZipLongestPairs(names, names);
    SameListsSteps(t, repPath, z);
  }

  lemma {:induction false} SameListsSteps(t: Tree, repPath: Path, z: seq<Pair>)
    requires forall i :: 0 <= i < |z| ==> z[i].src == z[i].rep
    ensures RunDirSteps(t, repPath, z) == (t, Ok)
    decreases |z|
  {
    if z != [] {
      assert DirStep(t, repPath, z[0]) == Success(t);
      SameListsSteps(t, repPath, z[1..]);
    }
  }

  /** The replica holds directories `a` and `b`, the source only `b`. */
  function TwoReplicaDirs(): (t: Tree)
    ensures WellFormed(t)
  {
    var t := map[[] := Dir, Replica := Dir, Replica + ["a"] := Dir, Replica + ["b"] := Dir];
    assert forall p :: p in t && p != [] ==> IsDir(t, Parent(p)) by {
      forall p | p in t && p != [] ensures IsDir(t, Parent(p)) {
        assert p == Replica || p == Replica + ["a"] || p == Replica + ["b"];
        assert Parent(Replica + ["a"]) == Replica;
        assert Parent(Replica + ["b"]) == Replica;
      }
    }
    t
  }

  /** Pairing by position goes wrong as soon as one name is missing: for
      source names `[b]` and replica names `[a, b]` the loop renames `a` onto
      `b` (which replaces the empty `b`) and then removes `b` as unmatched.
      It completes without error and neither name is left, although `b` is
      in the source. */
  lemma CompareDirNamesLosesShared()
    ensures var (t', r) := RunDirSteps(TwoReplicaDirs(), Replica, ZipLongest(["b"], ["a", "b"]));
            r == Ok && Replica + ["a"] !in t' && Replica + ["b"] !in t'
  {
    var t := TwoReplicaDirs();
    var z := ZipLongest(["b"], ["a", "b"]);
    ZipLongestPairs(["b"], ["a", "b"]);
    assert |z| == 2;
    assert z[0] == Pair(Some("b"), Some("a"));
    assert z[1] == Pair(None, Some("b"));
    var t1 := RenameAOntoB();
    assert DirStep(t, Replica, z[0]) == Success(t1);
    RunDirStepsFirst(t, Replica, z);
    var t2 := RemoveB(t1);
    assert DirStep(t1, Replica, z[1..][0]) == Success(t2);
    RunDirStepsFirst(t1, Replica, z[1..]);
    assert z[1..][1..] == [];
  }

  /** First step of the example: `os.rename('replica/a', 'replica/b')`. */
  lemma RenameAOntoB() returns (t1: Tree)
    ensures RenameOp(TwoReplicaDirs(), Replica + ["a"], Replica + ["b"]) == Success(t1)
    ensures IsDir(t1, Replica + ["b"]) && Replica + ["a"] !in t1
    ensures forall s :: s != [] ==> Replica + ["b"] + s !in t1
  {
    var t := TwoReplicaDirs();
    var a, b := Replica + ["a"], Replica + ["b"];
    assert forall q :: q in t <==> q == [] || q == Replica || q == a || q == b;
    assert !HasEntries(t, b) by {
      forall q | q in t ensures !(b < q) {
        assert q == [] || q == Replica || q == a || q == b;
      }
    }
    assert "a"[0] != "b"[0];
    assert a[1] != b[1];
    assert a != b && !(a < b);
    forall s | s != [] ensures a + s !in t {
      assert |a + s| > 2;
    }
    t1 := RenameEmptyDir(t, a, b);
  }

  /** Renaming an empty directory onto another empty directory. */
  lemma RenameEmptyDir(t: Tree, a: Path, b: Path) returns (t1: Tree)
    requires WellFormed(t) && RenameAllowed(t, a, b) && IsDir(t, a)
    requires forall s :: s != [] ==> a + s !in t
    ensures RenameOp(t, a, b) == Success(t1)
    ensures IsDir(t1, b) && a !in t1
    ensures forall s :: s != [] ==> b + s !in t1
  {
    t1 := RenameOp(t, a, b).value;
    assert MovedTo(t, a, b, t1);
    assert Get(t1, b + []) == Get(t, a + []);
    assert b + [] == b && a + [] == a;
    forall s | s != [] ensures b + s !in t1 {
      assert Get(t1, b + s) == Get(t, a + s);
    }
  }

  /** Second step of the example: `os.rmdir('replica/b')`. */
  lemma RemoveB(t1: Tree) returns (t2: Tree)
    requires IsDir(t1, Replica + ["b"]) && Replica + ["a"] !in t1
    requires forall s :: s != [] ==> Replica + ["b"] + s !in t1
    ensures RmdirOp(t1, Replica + ["b"]) == Success(t2)
    ensures Replica + ["a"] !in t2 && Replica + ["b"] !in t2
  {
    var b := Replica + ["b"];
    assert !HasEntries(t1, b) by {
      forall q | q in t1 ensures !(b < q) {
        var s := if |b| <= |q| then q[|b|..] else [];
        assert b < q ==> q == b + s && s != [];
      }
    }
    t2 := RmdirOp(t1, b).value;
  }

  /** The conditions under which `SyncDirNames` cannot fail: the replica
      path is a directory, every replica-only directory is empty and no
      source-only name is taken. */
  ghost predicate SyncReady(t: Tree, repPath: Path, src: set<Name>, rep: set<Name>)
  {
    IsDir(t, repPath) &&
    (forall n :: n in rep - src ==> IsDir(t, repPath + [n]) && !HasEntries(t, repPath + [n])) &&
    (forall n :: n in src - rep ==> repPath + [n] !in t)
  }

  /** The reconciliation `compare_dir_names` evidently aims at, matching
      names rather than positions: each replica-only directory is removed and
      each source-only one created. When it completes on a faithful listing
      of the replica, the replica's sub-directories are exactly the source
      names. */
  method SyncDirNames(fs: FileSystem, repPath: Path, srcDirs: seq<Name>, repDirs: seq<Name>) returns (r: Outcome)
    requires fs.Valid()
    modifies fs
    ensures fs.Valid()
    ensures r.Fail? ==> IsOsError(r.error)
    ensures forall q :: !Among(q, repPath, AsSet(srcDirs) + AsSet(repDirs)) ==>
                          Get(fs.entries, q) == Get(old(fs.entries), q)
    ensures r.Ok? && (forall n :: n in repDirs <==> IsDir(old(fs.entries), repPath + [n])) ==>
              DirNames(fs.entries, repPath) == AsSet(srcDirs)
    ensures SyncReady(old(fs.entries), repPath, AsSet(srcDirs), AsSet(repDirs)) ==> r.Ok?
  {
    ghost var t0 := fs.entries;
    var src, rep := AsSet(srcDirs), AsSet(repDirs);
    AmongGrows(repPath, rep - src, src + rep);
    AmongGrows(repPath, src - rep, src + rep);
    r := RemoveDirs(fs, repPath, rep - src);
    if r.Fail? {
      return;
    }
    ghost var t1 := fs.entries;
    assert !Among(repPath, repPath, rep - src);
    forall n | n in src - rep ensures Get(t1, repPath + [n]) == Get(t0, repPath + [n]) {
      AmongChild(repPath, n, rep - src);
    }
    r := CreateDirs(fs, repPath, src, rep);
    if r.Fail? {
      return;
    }
    if forall n :: n in repDirs <==> IsDir(t0, repPath + [n]) {
      forall n ensures IsDir(fs.entries, repPath + [n]) <==> n in src {
        AmongChild(repPath, n, rep - src);
        AmongChild(repPath, n, src - rep);
      }
    }
  }

  /** `os.rmdir` of each of the `names` below `repPath`. Every change is the
      removal of one of them; when the loop completes, all of them are gone
      and nothing else changed. It completes when each is an empty
      directory. */
  method RemoveDirs(fs: FileSystem, repPath: Path, names: set<Name>) returns (r: Outcome)
    requires fs.Valid()
    modifies fs
    ensures fs.Valid()
    ensures r.Fail? ==> IsOsError(r.error)
    ensures forall q :: Get(fs.entries, q) != Get(old(fs.entries), q) ==>
              Among(q, repPath, names) && Get(fs.entries, q) == None
    ensures r.Ok? ==>
              forall q :: Get(fs.entries, q) == if Among(q, repPath, names) then None else Get(old(fs.entries), q)
    ensures (forall n :: n in names ==> IsDir(old(fs.entries), repPath + [n]) &&
                                        !HasEntries(old(fs.entries), repPath + [n])) ==> r.Ok?
  {
    ghost var t0 := fs.entries;
    r := Ok;
    var todo := names;
    while todo != {}
      invariant fs.Valid()
      invariant todo <= names
      invariant forall q :: Get(fs.entries, q) == if Among(q, repPath, names - todo) then None else Get(t0, q)
      invariant r == Ok
      decreases todo
    {
      var n :| n in todo;
      AmongChild(repPath, n, names - todo);
      forall c | repPath + [n] < c ensures c in fs.entries ==> c in t0 {
        assert !Among(c, repPath, names - todo);
      }
      r := fs.Rmdir(repPath + [n]);
      if r.Fail? {
        AmongGrows(repPath, names - todo, names);
        return;
      }
      AmongAdd(repPath, names - todo, n);
      assert names - (todo - {n}) == (names - todo) + {n};
      todo := todo - {n};
    }
    assert names - todo == names;
  }

  // ---------------------------------------------------------------------
  // compare_files and comparison

  /** `compare_files(src_root, rep_root, src_files, rep_files)` of main.py:
      a file in both sets is checked with `verify_content`, a source-only
      file is copied to the replica; afterwards every source-only file is
      removed from the replica again, so that only the files in both sets
      end up synchronised. Directories are never created or removed. */
  method CompareFiles(fs: FileSystem, srcRoot: Path, repRoot: Path, srcFiles: set<Name>, repFiles: set<Name>, md5: Hash)
    returns (r: Outcome)
    requires fs.Valid()
    modifies fs
    ensures fs.Valid()
    ensures r.Fail? ==> IsOsError(r.error)
    ensures forall q :: !Among(q, repRoot, srcFiles) ==> Get(fs.entries, q) == Get(old(fs.entries), q)
    ensures forall q :: IsDir(fs.entries, q) <==> IsDir(old(fs.entries), q)
    ensures r.Ok? ==> forall f :: f in srcFiles && f in repFiles ==> Mirrored(fs.entries, srcRoot, repRoot, f, md5)
    ensures r.Ok? ==> forall f :: f in srcFiles && f !in repFiles ==> repRoot + [f] !in fs.entries
    ensures FilesReady(old(fs.entries), srcRoot, repRoot, srcFiles, repFiles) ==> r.Ok?
  {
    ghost var t0 := fs.entries;
    var todo := srcFiles;
    while todo != {}
      invariant fs.Valid()
      invariant todo <= srcFiles
      invariant CopiesOnly(t0, fs.entries, srcRoot, repRoot, srcFiles - todo)
      invariant forall f :: f in srcFiles - todo ==> Mirrored(fs.entries, srcRoot, repRoot, f, md5)
      decreases todo
    {
      var f :| f in todo;
      ghost var before := fs.entries;
      ghost var done := srcFiles - todo;
      Untouched(t0, before, srcRoot, repRoot, f, done);
      ReadyForFile(t0, before, srcRoot, repRoot, srcFiles, repFiles, f);
      r := CompareFile(fs, srcRoot, repRoot, f, f in repFiles, md5);
      if r.Fail? {
        CopiesKeepDirs(t0, fs.entries, srcRoot, repRoot, done);
        CopiesFrame(t0, fs.entries, srcRoot, repRoot, done, srcFiles);
        return;
      }
      todo := todo - {f};
      CompareFilesStep(t0, before, fs.entries, srcRoot, repRoot, f, done, md5);
    }
    ghost var afterCopies := fs.entries;
    CopiesKeepDirs(t0, afterCopies, srcRoot, repRoot, srcFiles);
    CopiesFrame(t0, afterCopies, srcRoot, repRoot, srcFiles, srcFiles);
    assert srcFiles - todo == srcFiles;
    assert forall n :: n in srcFiles - repFiles ==> IsFile(afterCopies, repRoot + [n]);
    r := RemoveFiles(fs, repRoot, srcFiles - repFiles);
    forall q | !Among(q, repRoot, srcFiles) ensures Get(fs.entries, q) == Get(t0, q) {
      assert !Among(q, repRoot, srcFiles - repFiles);
    }
    forall f | f in srcFiles && f in repFiles ensures Mirrored(fs.entries, srcRoot, repRoot, f, md5) {
      AmongChild(repRoot, f, srcFiles - repFiles);
      CompareFilesStepFrame(srcRoot, repRoot, f, srcFiles - repFiles);
      MirroredKept(afterCopies, fs.entries, srcRoot, repRoot, f, md5);
    }
  }

  /** Copies of some of `names` change nothing outside `repRoot/names`. */
  lemma CopiesFrame(t0: Tree, t: Tree, srcRoot: Path, repRoot: Path, done: set<Name>, names: set<Name>)
    requires done <= names && CopiesOnly(t0, t, srcRoot, repRoot, done)
    ensures forall q :: !Among(q, repRoot, names) ==> Get(t, q) == Get(t0, q)
  {
  }

  /** No name is a directory on one side and a file on the other. */
  ghost predicate NoKindClash(src: Level, rep: Level)
  {
    (forall n :: n in src.dirs ==> n !in rep.files) &&
    (forall n :: n in src.files ==> n !in rep.dirs)
  }

  /** Both levels are current, their roots differ and no name clashes. */
  ghost predicate ComparisonReady(t: Tree, src: Level, rep: Level)
  {
    Describes(t, src) && Describes(t, rep) && src.root != rep.root && NoKindClash(src, rep)
  }

  /** `comparison(src, rep)`: creates in the replica each source directory
      it lacks, then removes those same directories again (the second loop
      walks the same difference as the first), reconciles the files with
      `compare_files`, and finally raises `TypeError`: the test
      `src_dirs == {}` compares a set with an empty dict and never holds, and
      the recursive call that follows omits the required argument `rep`.
      Given `None` for either level, subscripting it raises `TypeError`
      before anything changes. So the function never returns normally; when
      it gets as far as its last line, the net effect is that of
      `compare_files` alone. No directory that existed is ever removed. */
  method Comparison(fs: FileSystem, src: Option<Level>, rep: Option<Level>, md5: Hash) returns (r: Outcome)
    requires fs.Valid()
    modifies fs
    ensures fs.Valid()
    ensures r.Fail?
    ensures src.None? || rep.None? ==> r == Fail(TypeError) && fs.entries == old(fs.entries)
    ensures src.Some? && rep.Some? ==>
              forall q :: !Among(q, rep.value.root, AsSet(src.value.dirs) + AsSet(src.value.files)) ==>
                Get(fs.entries, q) == Get(old(fs.entries), q)
    ensures src.Some? && rep.Some? && r == Fail(TypeError) ==>
              forall q :: !Among(q, rep.value.root, AsSet(src.value.files)) ==>
                Get(fs.entries, q) == Get(old(fs.entries), q)
    ensures src.Some? && rep.Some? && r == Fail(TypeError) ==>
              forall f :: f in src.value.files && f in rep.value.files ==>
                Mirrored(fs.entries, src.value.root, rep.value.root, f, md5)
    ensures src.Some? && rep.Some? && r == Fail(TypeError) ==>
              forall f :: f in src.value.files && f !in rep.value.files ==> rep.value.root + [f] !in fs.entries
    ensures forall q :: IsDir(old(fs.entries), q) ==> IsDir(fs.entries, q)
    ensures src.Some? && rep.Some? && ComparisonReady(old(fs.entries), src.value, rep.value) ==> r == Fail(TypeError)
  {
    if src.None? || rep.None? {
      return Fail(TypeError);
    }
    var srcRoot, repRoot := src.value.root, rep.value.root;
    var srcDirs, repDirs := AsSet(src.value.dirs), AsSet(rep.value.dirs);
    ghost var t0 := fs.entries;
    assert ComparisonReady(t0, src.value, rep.value) ==>
             IsDir(t0, repRoot) && forall d :: d in srcDirs - repDirs ==> repRoot + [d] !in t0;
    r := CreateDirs(fs, repRoot, srcDirs, repDirs);
    if r.Fail? {
      CreatedOnlyAdds(t0, fs.entries);
      return;
    }
    RemoveCreated(fs, repRoot, srcDirs - repDirs, t0);
    r := CompareFiles(fs, srcRoot, repRoot, AsSet(src.value.files), AsSet(rep.value.files), md5);
    if r.Fail? {
      return;
    }
    // `src_dirs == {}` is never true, and `comparison(f'{src_root}/')` is
    // missing its second argument.
    r := Fail(TypeError);
  }

  /** The first loop of `comparison`: `os.mkdir` of each source directory
      name the replica lacks. Every change is a new directory for one of
      those names; when the loop completes, each of them was missing and is
      now a directory, and nothing else changed. */
  method CreateDirs(fs: FileSystem, repRoot: Path, srcDirs: set<Name>, repDirs: set<Name>) returns (r: Outcome)
    requires fs.Valid()
    modifies fs
    ensures fs.Valid()
    ensures r.Fail? ==> IsOsError(r.error)
    ensures forall q :: Get(fs.entries, q) != Get(old(fs.entries), q) ==>
              Among(q, repRoot, srcDirs - repDirs) && Get(fs.entries, q) == Some(Dir)
    ensures r.Ok? ==>
              forall q :: Get(fs.entries, q) ==
                if Among(q, repRoot, srcDirs - repDirs) then Some(Dir) else Get(old(fs.entries), q)
    ensures r.Ok? ==> forall d :: d in srcDirs - repDirs ==> repRoot + [d] !in old(fs.entries)
    ensures (IsDir(old(fs.entries), repRoot) &&
             forall d :: d in srcDirs - repDirs ==> repRoot + [d] !in old(fs.entries)) ==> r.Ok?
  {
    ghost var t0 := fs.entries;
    ghost var ready := IsDir(t0, repRoot) && forall d :: d in srcDirs - repDirs ==> repRoot + [d] !in t0;
    assert !Among(repRoot, repRoot, srcDirs);
    r := Ok;
    var todo := srcDirs;
    while todo != {}
      invariant fs.Valid()
      invariant todo <= srcDirs
      invariant forall q :: Get(fs.entries, q) ==
                  if Among(q, repRoot, (srcDirs - todo) - repDirs) then Some(Dir) else Get(t0, q)
      invariant forall d :: d in (srcDirs - todo) - repDirs ==> repRoot + [d] !in t0
      invariant r == Ok
      decreases todo
    {
      var d :| d in todo;
      if d !in repDirs {
        AmongChild(repRoot, d, (srcDirs - todo) - repDirs);
        AmongChild(repRoot, d, (srcDirs - (todo - {d})) - repDirs);
        assert Get(fs.entries, repRoot + [d]) == Get(t0, repRoot + [d]);
        assert Get(fs.entries, repRoot) == Get(t0, repRoot);
        assert ready ==> repRoot + [d] !in t0;
        r := fs.Mkdir(repRoot + [d]);
        if r.Fail? {
          AmongGrows(repRoot, (srcDirs - todo) - repDirs, srcDirs - repDirs);
          return;
        }
        AmongAdd(repRoot, (srcDirs - todo) - repDirs, d);
        assert (srcDirs - (todo - {d})) - repDirs == ((srcDirs - todo) - repDirs) + {d};
      } else {
        assert (srcDirs - (todo - {d})) - repDirs == (srcDirs - todo) - repDirs;
      }
      todo := todo - {d};
    }
    assert (srcDirs - todo) - repDirs == srcDirs - repDirs;
  }

  lemma AmongGrows(root: Path, names: set<Name>, more: set<Name>)
    requires names <= more
    ensures forall q :: Among(q, root, names) ==> Among(q, root, more)
  {
  }

  /** The second loop of `comparison`: `os.rmdir` of the same names the first
      loop created. Each was missing before and is empty now, so every
      removal succeeds and the tree is back to where it was. */
  method RemoveCreated(fs: FileSystem, repRoot: Path, names: set<Name>, ghost t0: Tree)
    requires fs.Valid() && WellFormed(t0)
    requires forall q :: Get(fs.entries, q) == if Among(q, repRoot, names) then Some(Dir) else Get(t0, q)
    requires forall d :: d in names ==> repRoot + [d] !in t0
    modifies fs
    ensures fs.Valid()
    ensures fs.entries == t0
  {
    var todo := names;
    while todo != {}
      invariant fs.Valid()
      invariant todo <= names
      invariant forall q :: Get(fs.entries, q) == if Among(q, repRoot, todo) then Some(Dir) else Get(t0, q)
      decreases todo
    {
      var d :| d in todo;
      AmongChild(repRoot, d, todo);
      AmongChild(repRoot, d, todo - {d});
      CreatedIsEmpty(t0, fs.entries, repRoot, todo, repRoot + [d]);
      var r := fs.Rmdir(repRoot + [d]);
      assert r == Ok;
      AmongRemove(repRoot, todo, d);
      forall q ensures Get(fs.entries, q) == if Among(q, repRoot, todo - {d}) then Some(Dir) else Get(t0, q) {
        if q == repRoot + [d] {
          assert Get(fs.entries, q) == None;
        }
      }
      todo := todo - {d};
    }
    GetExtensional(fs.entries, t0);
  }

  /** Changes that only ever leave a directory behind remove none. */
  lemma CreatedOnlyAdds(t0: Tree, t: Tree)
    requires forall q :: Get(t, q) != Get(t0, q) ==> Get(t, q) == Some(Dir)
    ensures forall q :: IsDir(t0, q) ==> IsDir(t, q)
  {
    forall q | IsDir(t0, q) ensures IsDir(t, q) {
      assert Get(t0, q) == Some(Dir);
    }
  }

  /** A directory just created where nothing was is empty, even after some
      of its siblings were created too. */
  lemma CreatedIsEmpty(t0: Tree, t: Tree, root: Path, names: set<Name>, p: Path)
    requires WellFormed(t0) && p !in t0 && |p| == |root| + 1
    requires forall q :: Get(t, q) == if Among(q, root, names) then Some(Dir) else Get(t0, q)
    ensures !HasEntries(t, p)
  {
    NothingBelowMissing(t0, p);
    forall q | q in t ensures !(p < q) {
      assert Get(t, q) != None;
    }
  }

  // ---------------------------------------------------------------------
  // compare

  /** `source` and `replica` are directories and no name is a directory in
      one and a file in the other. */
  ghost predicate CompareReady(t: Tree)
  {
    IsDir(t, Source) && IsDir(t, Replica) &&
    forall n :: !(IsDir(t, Source + [n]) && IsFile(t, Replica + [n])) &&
                !(IsFile(t, Source + [n]) && IsDir(t, Replica + [n]))
  }

  /** `compare()`: `os.path.getmtime` raises when `source` or `replica` is
      missing (the times it reads decide nothing); then the top levels of
      both are read with `sort_dirs` and handed to `comparison`. A root that
      is a file yields no level, so `comparison` raises `TypeError` on the
      `None` it receives. The script therefore never completes normally. It
      only ever touches entries directly inside `replica`, and on trees
      where the levels are compatible it ends with every file present at the
      top of both directories digest-equal and everything else as it was. */
  method Compare(fs: FileSystem, md5: Hash) returns (r: Outcome)
    requires fs.Valid()
    modifies fs
    ensures fs.Valid()
    ensures r.Fail?
    ensures Source !in old(fs.entries) || Replica !in old(fs.entries) ==>
              r == Fail(FileNotFound) && fs.entries == old(fs.entries)
    ensures Source in old(fs.entries) && Replica in old(fs.entries) &&
            (IsFile(old(fs.entries), Source) || IsFile(old(fs.entries), Replica)) ==>
              r == Fail(TypeError) && fs.entries == old(fs.entries)
    ensures forall q :: (q == [] || Parent(q) != Replica) ==> Get(fs.entries, q) == Get(old(fs.entries), q)
    ensures forall q :: IsDir(old(fs.entries), q) ==> IsDir(fs.entries, q)
    ensures CompareReady(old(fs.entries)) ==> r == Fail(TypeError)
    ensures CompareReady(old(fs.entries)) ==>
              forall f :: IsFile(old(fs.entries), Source + [f]) && IsFile(old(fs.entries), Replica + [f]) ==>
                Mirrored(fs.entries, Source, Replica, f, md5)
    ensures CompareReady(old(fs.entries)) ==>
              forall q :: !Among(q, Replica, FileNames(old(fs.entries), Source) * FileNames(old(fs.entries), Replica)) ==>
                Get(fs.entries, q) == Get(old(fs.entries), q)
  {
    var hasSource := fs.Exists(Source);
    if !hasSource {
      return Fail(FileNotFound);
    }
    var hasReplica := fs.Exists(Replica);
    if !hasReplica {
      return Fail(FileNotFound);
    }
    ghost var t0 := fs.entries;
    var source := SortDirs(fs, Source);
    var replica := SortDirs(fs, Replica);
    assert Source[0][0] != Replica[0][0];
    if CompareReady(t0) {
      assert ComparisonReady(t0, source.value, replica.value);
    }
    r := Comparison(fs, source, replica, md5);
    if CompareReady(t0) {
      var srcFiles, repFiles := AsSet(source.value.files), AsSet(replica.value.files);
      forall q | !Among(q, Replica, FileNames(t0, Source) * FileNames(t0, Replica))
        ensures Get(fs.entries, q) == Get(t0, q)
      {
        if Among(q, Replica, srcFiles) {
          var f := q[|q| - 1];
          assert q == Replica + [f];
          assert f !in replica.value.files;
          assert q !in fs.entries && q !in t0;
        }
      }
    }
  }
}
