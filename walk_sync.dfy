/** test.py: full-depth synchronisation. `os.walk('source')` visits every
    directory below `source`, parents first, and `compare_subdirs` mirrors
    each one at the path its text turns into when `source` is replaced by
    `replica`: a missing replica directory is copied whole with
    `shutil.copytree`, an existing one has its files reconciled by
    `compare_files`. Nothing is ever deleted: the removal loop of this
    `compare_files` runs over a set that is always empty. */
module WalkSync {
  import opened Fs
  import opened Listing
  import opened Content
  import opened PathText

  // ---------------------------------------------------------------------
  // compare_files

  /** The `set(rep[2])` that `compare_files` receives and grows in place with
      `rep_files.add`. */
  class NameSet {
    var elems: set<Name>

    constructor (names: set<Name>)
      ensures elems == names
    {
      elems := names;
    }

    /** `rep_files.add(n)` */
    method Add(n: Name)
      modifies this
      ensures elems == old(elems) + {n}
    {
      elems := elems + {n};
    }
  }

  /** `compare_files(src_root, rep_root, src_files, rep_files)` of test.py:
      the copy loop, then the removal loop over `src_files - rep_files`.
      Since the copy loop adds every name it copies to `rep_files`, that set
      is empty by then: every source file ends up mirrored, only source
      files are written, and nothing is removed. */
  method CompareFiles(fs: FileSystem, srcRoot: Path, repRoot: Path, srcFiles: set<Name>, repFiles: NameSet, md5: Hash)
    returns (r: Outcome)
    requires fs.Valid()
    modifies fs, repFiles
    ensures fs.Valid()
    ensures r.Fail? ==> IsOsError(r.error)
    ensures CopiesOnly(old(fs.entries), fs.entries, srcRoot, repRoot, srcFiles)
    ensures r.Ok? ==> repFiles.elems == old(repFiles.elems) + srcFiles
    ensures r.Ok? ==> forall f :: f in srcFiles ==> Mirrored(fs.entries, srcRoot, repRoot, f, md5)
    ensures FilesReady(old(fs.entries), srcRoot, repRoot, srcFiles, old(repFiles.elems)) ==> r.Ok?
  {
    r := CopyFiles(fs, srcRoot, repRoot, srcFiles, repFiles, md5);
    if r.Fail? {
      return;
    }
    var doomed := srcFiles - repFiles.elems;
    assert doomed == {};
    r := RemoveFiles(fs, repRoot, doomed);
  }

  /** The copy loop of test.py's `compare_files`: a file in both sets is
      checked with `verify_content`; a source-only file is copied and its
      name added to `rep_files`. */
  method CopyFiles(fs: FileSystem, srcRoot: Path, repRoot: Path, srcFiles: set<Name>, repFiles: NameSet, md5: Hash)
    returns (r: Outcome)
    requires fs.Valid()
    modifies fs, repFiles
    ensures fs.Valid()
    ensures r.Fail? ==> IsOsError(r.error)
    ensures CopiesOnly(old(fs.entries), fs.entries, srcRoot, repRoot, srcFiles)
    ensures r.Ok? ==> repFiles.elems == old(repFiles.elems) + srcFiles
    ensures r.Ok? ==> forall f :: f in srcFiles ==> Mirrored(fs.entries, srcRoot, repRoot, f, md5)
    ensures FilesReady(old(fs.entries), srcRoot, repRoot, srcFiles, old(repFiles.elems)) ==> r.Ok?
  {
    ghost var t0 := fs.entries;
    ghost var rep0 := repFiles.elems;
    r := Ok;
    var todo := srcFiles;
    while todo != {}
      invariant fs.Valid()
      invariant todo <= srcFiles
      invariant CopiesOnly(t0, fs.entries, srcRoot, repRoot, srcFiles - todo)
      invariant repFiles.elems == rep0 + (srcFiles - todo)
      invariant forall f :: f in srcFiles - todo ==> Mirrored(fs.entries, srcRoot, repRoot, f, md5)
      invariant r == Ok
      decreases todo
    {
      var f :| f in todo;
      ghost var before := fs.entries;
      ghost var done := srcFiles - todo;
      Untouched(t0, before, srcRoot, repRoot, f, done);
      ReadyForFile(t0, before, srcRoot, repRoot, srcFiles, rep0, f);
      var listed := f in repFiles.elems;
      assert listed <==> f in rep0;
      r := CompareFile(fs, srcRoot, repRoot, f, listed, md5);
      if r.Fail? {
        return;
      }
      if !listed {
        repFiles.Add(f);
      }
      GrowStep(rep0, srcFiles, todo, f);
      todo := todo - {f};
      CompareFilesStep(t0, before, fs.entries, srcRoot, repRoot, f, done, md5);
    }
  }

  /** After the pass for `f`, `rep_files` holds the names it started with
      and every name handled so far, whether or not `f` had to be added. */
  lemma GrowStep(rep0: set<Name>, srcFiles: set<Name>, todo: set<Name>, f: Name)
    requires f in todo && todo <= srcFiles
    ensures f in rep0 ==> rep0 + (srcFiles - todo) == rep0 + (srcFiles - (todo - {f}))
    ensures rep0 + (srcFiles - todo) + {f} == rep0 + (srcFiles - (todo - {f}))
  {
  }

  // ---------------------------------------------------------------------
  // compare_subdirs

  /** Every position where `t` differs from `t0` is at or below `dst` and
      holds what the matching position below `src` held in `t0`, or is a
      directory created above `dst`. */
  ghost predicate MirrorsOnly(t0: Tree, t: Tree, src: Path, dst: Path)
  {
    forall q :: Get(t, q) != Get(t0, q) ==>
      (dst <= q && Get(t, q) == Get(t0, src + q[|dst|..])) ||
      (q < dst && q !in t0 && IsDir(t, q))
  }

  /** The conditions under which `compare_subdirs(path, _, files)` cannot
      raise: `path` is a directory holding the `files`, the replica path
      lies outside it, and either the replica path is a directory with no
      sub-directory in the way of a file, or it is missing with no file on
      the way to it. */
  ghost predicate SubdirReady(t: Tree, path: Path, repPath: Path, files: seq<Name>)
  {
    IsDir(t, path) && !(path <= repPath) &&
    (forall f :: f in files ==> IsFile(t, path + [f])) &&
    (repPath in t ==> IsDir(t, repPath) && forall f :: f in files ==> !IsDir(t, repPath + [f])) &&
    (repPath !in t ==> forall q :: q < repPath ==> !IsFile(t, q))
  }

  /** What each branch of `compare_subdirs` does: when the replica path
      exists, only its children named by `files` change, each to a copy of
      the source file; when it is missing, a completed `copytree` makes the
      whole subtree of `path` reappear below it. */
  ghost predicate BranchEffect(t0: Tree, t: Tree, path: Path, repPath: Path, files: seq<Name>, r: Outcome)
  {
    (repPath in t0 ==> CopiesOnly(t0, t, path, repPath, AsSet(files))) &&
    (repPath !in t0 && r.Ok? ==> forall s :: Get(t, repPath + s) == Get(t0, path + s))
  }

  /** `compare_subdirs(path, dirs, files)`: computes the replica path by
      text replacement; if it exists, lists its files (test.py:8) and runs
      `compare_files` on the two file sets, otherwise copies the whole
      directory there. `dirs` is not used. */
  method CompareSubdirs(fs: FileSystem, path: Path, dirs: seq<Name>, files: seq<Name>, md5: Hash) returns (r: Outcome)
    requires fs.Valid()
    modifies fs
    ensures fs.Valid()
    ensures r.Fail? ==> IsOsError(r.error)
    ensures MirrorsOnly(old(fs.entries), fs.entries, path, ReplacePath(path))
    ensures forall q :: q in old(fs.entries) ==> q in fs.entries
    ensures r.Ok? ==> IsDir(fs.entries, ReplacePath(path))
    ensures r.Ok? ==> forall f :: f in files && IsFile(old(fs.entries), path + [f]) ==>
                                  Mirrored(fs.entries, path, ReplacePath(path), f, md5)
    ensures SubdirReady(old(fs.entries), path, ReplacePath(path), files) ==> r.Ok?
    ensures BranchEffect(old(fs.entries), fs.entries, path, ReplacePath(path), files, r)
  {
    ghost var t0 := fs.entries;
    var repPath := ReplacePath(path);
    var present := fs.Exists(repPath);
    if present {
      var scan := ScanDir(fs, repPath);
      if scan.Failure? {
        return Fail(scan.error);
      }
      var repFiles := new NameSet(AsSet(scan.value.files));
      SubdirFilesReady(t0, path, repPath, files, scan.value);
      r := CompareFiles(fs, path, repPath, AsSet(files), repFiles, md5);
      CopiesMirror(t0, fs.entries, path, repPath, AsSet(files));
    } else {
      r := fs.CopyTree(path, repPath);
      CopyTreeMirrors(t0, path, repPath, files, md5);
    }
  }

  /** An existing replica directory that `SubdirReady` describes is ready
      for `compare_files` with the listing test.py:8 takes of it. */
  lemma SubdirFilesReady(t: Tree, path: Path, repPath: Path, files: seq<Name>, rep: Split)
    requires IsDir(t, repPath) && Lists(t, repPath, rep)
    ensures SubdirReady(t, path, repPath, files) ==> FilesReady(t, path, repPath, AsSet(files), AsSet(rep.files))
  {
  }

  /** What `compare_files` writes are copies from `path` to `repPath`. */
  lemma CopiesMirror(t0: Tree, t: Tree, path: Path, repPath: Path, names: set<Name>)
    requires CopiesOnly(t0, t, path, repPath, names)
    ensures MirrorsOnly(t0, t, path, repPath)
    ensures forall q :: q in t0 ==> q in t
  {
    forall q | Get(t, q) != Get(t0, q)
      ensures repPath <= q && Get(t, q) == Get(t0, path + q[|repPath|..])
    {
      assert q == Parent(q) + [q[|q| - 1]];
    }
  }

  /** `shutil.copytree(path, repPath)` as `compare_subdirs` uses it: only
      additions at and above `repPath`, and on success the whole subtree of
      `path` reappears below `repPath`, every file of `path` mirrored there. */
  lemma CopyTreeMirrors(t0: Tree, path: Path, repPath: Path, files: seq<Name>, md5: Hash)
    requires WellFormed(t0) && repPath !in t0
    ensures var t := TreeAfter(t0, CopyTreeOp(t0, path, repPath));
            MirrorsOnly(t0, t, path, repPath) &&
            (forall q :: q in t0 ==> q in t) &&
            (CopyTreeOp(t0, path, repPath).Success? ==>
               (forall s :: Get(t, repPath + s) == Get(t0, path + s)) &&
               IsDir(t, repPath) &&
               forall f :: f in files && IsFile(t0, path + [f]) ==> Mirrored(t, path, repPath, f, md5)) &&
            (SubdirReady(t0, path, repPath, files) ==> CopyTreeOp(t0, path, repPath).Success?)
  {
    var res := CopyTreeOp(t0, path, repPath);
    if res.Success? {
      CopyTreeChanges(t0, path, repPath, res.value);
      CopyTreeFiles(t0, path, repPath, res.value, files, md5);
    }
  }

  /** A successful `copytree` to a missing path only adds entries, each a
      copy from below `path` or a missing ancestor directory. */
  lemma CopyTreeChanges(t0: Tree, path: Path, repPath: Path, t: Tree)
    requires WellFormed(t0) && repPath !in t0 && CopyTreeOp(t0, path, repPath) == Success(t)
    ensures MirrorsOnly(t0, t, path, repPath)
    ensures forall q :: q in t0 ==> q in t
  {
    NothingBelowMissing(t0, repPath);
    forall q | Get(t, q) != Get(t0, q) && repPath <= q
      ensures Get(t, q) == Get(t0, path + q[|repPath|..])
    {
      assert q == repPath + q[|repPath|..];
    }
  }

  /** After a successful `copytree`, the copy is a directory holding each
      file of `path`. */
  lemma CopyTreeFiles(t0: Tree, path: Path, repPath: Path, t: Tree, files: seq<Name>, md5: Hash)
    requires WellFormed(t0) && repPath !in t0 && CopyTreeOp(t0, path, repPath) == Success(t)
    ensures IsDir(t, repPath)
    ensures forall f :: f in files && IsFile(t0, path + [f]) ==> Mirrored(t, path, repPath, f, md5)
  {
    NothingBelowMissing(t0, repPath);
    assert Get(t, repPath + []) == Get(t0, path + []);
    assert repPath + [] == repPath && path + [] == path;
    forall f | f in files && IsFile(t0, path + [f])
      ensures Get(t, path + [f]) == Get(t0, path + [f])
      ensures Get(t, repPath + [f]) == Get(t0, path + [f])
    {
    }
  }

  // ---------------------------------------------------------------------
  // main: the walk

  /** `source` and every directory below it. */
  function SourceDirs(t: Tree): (r: set<Path>)
    ensures forall d :: d in r <==> Source <= d && IsDir(t, d)
  {
    set d | d in t && Source <= d && t[d] == Dir
  }

  /** `source` occurs in no directory name below the top: the text
      replacement then only swaps the leading component. */
  ghost predicate PrefixOnly(t: Tree)
  {
    forall d :: d in SourceDirs(t) ==> PrefixOnlyPath(d)
  }

  /** Every source path that `t` holds at its replica position is of the same
      kind there (directory or file) as in `t0`. */
  ghost predicate KindsAgree(t0: Tree, t: Tree)
  {
    forall s :: Source <= s && s in t0 && Swap(s) in t ==> (t[Swap(s)] == Dir <==> t0[s] == Dir)
  }

  /** No path is a directory on one side and a file on the other. */
  ghost predicate NoClash(t: Tree)
  {
    KindsAgree(t, t)
  }

  /** Source directory `d` of `t0` is mirrored in `t`: a directory at its
      replica position holding a digest-equal copy of each of its files. */
  ghost predicate MirroredDir(t0: Tree, t: Tree, d: Path, md5: Hash)
  {
    Source <= d && IsDir(t, Swap(d)) &&
    forall f :: IsFile(t0, d + [f]) ==> Mirrored(t, d, Swap(d), f, md5)
  }

  /** `main()`: walks `source` top-down and calls `compare_subdirs` on each
      directory with its listing. Outside `replica` nothing changes and
      nothing is ever removed. When `source` occurs only as the leading
      component, a run that completes leaves every source directory
      mirrored; it does complete unless a directory and a file sit at the
      same relative path on the two sides. */
  method WalkSource(fs: FileSystem, md5: Hash) returns (r: Outcome)
    requires fs.Valid()
    modifies fs
    ensures fs.Valid()
    ensures r.Fail? ==> IsOsError(r.error)
    ensures forall q :: !(Replica <= q) ==> Get(fs.entries, q) == Get(old(fs.entries), q)
    ensures forall q :: q in old(fs.entries) ==> q in fs.entries
    ensures PrefixOnly(old(fs.entries)) && r.Ok? ==>
              forall d :: d in SourceDirs(old(fs.entries)) ==> MirroredDir(old(fs.entries), fs.entries, d, md5)
    ensures PrefixOnly(old(fs.entries)) && NoClash(old(fs.entries)) ==> r.Ok?
  {
    ghost var t0 := fs.entries;
    ghost var ready := PrefixOnly(t0) && NoClash(t0);
    var top := fs.IsDirectory(Source);
    var pending: set<Path> := if top then {Source} else {};
    ghost var visited: set<Path> := {};
    FrontierStart(t0, pending);
    r := Ok;
    while pending != {}
      invariant fs.Valid()
      invariant forall q :: !(Replica <= q) ==> Get(fs.entries, q) == Get(t0, q)
      invariant forall q :: q in t0 ==> q in fs.entries
      invariant Frontier(t0, pending, visited)
      invariant PrefixOnly(t0) ==> forall v :: v in visited ==> MirroredDir(t0, fs.entries, v, md5)
      invariant ready ==> KindsAgree(t0, fs.entries)
      invariant r == Ok
      decreases SourceDirs(t0) - visited
    {
      var d :| d in pending;
      SourceListing(t0, fs.entries, d);
      var scan := ScanDir(fs, d);
      var split := scan.value;
      r := VisitDir(fs, d, split, md5, t0, pending, visited);
      if r.Fail? {
        return;
      }
      var children := set n | n in split.dirs :: d + [n];
      FrontierStep(t0, pending, visited, d, split.dirs, children);
      pending := (pending - {d}) + children;
      visited := visited + {d};
    }
    AllVisited(t0, visited);
  }

  /** One iteration of the walk: `compare_subdirs` on the yielded
      directory `d` with its listing. Nothing outside `replica` changes and
      nothing is removed; when `source` occurs only as the leading
      component, `d` joins the mirrored directories; on compatible trees the
      call cannot fail and the kinds keep agreeing. */
  method VisitDir(fs: FileSystem, d: Path, split: Split, md5: Hash, ghost t0: Tree, ghost pending: set<Path>, ghost visited: set<Path>)
    returns (r: Outcome)
    requires fs.Valid() && WellFormed(t0)
    requires Frontier(t0, pending, visited) && d in pending
    requires Lists(t0, d, split)
    requires forall q :: !(Replica <= q) ==> Get(fs.entries, q) == Get(t0, q)
    requires PrefixOnly(t0) ==> forall v :: v in visited ==> MirroredDir(t0, fs.entries, v, md5)
    requires PrefixOnly(t0) && NoClash(t0) ==> KindsAgree(t0, fs.entries)
    modifies fs
    ensures fs.Valid()
    ensures r.Fail? ==> IsOsError(r.error)
    ensures forall q :: !(Replica <= q) ==> Get(fs.entries, q) == Get(old(fs.entries), q)
    ensures forall q :: q in old(fs.entries) ==> q in fs.entries
    ensures r.Ok? && PrefixOnly(t0) ==> forall v :: v in visited + {d} ==> MirroredDir(t0, fs.entries, v, md5)
    ensures PrefixOnly(t0) && NoClash(t0) ==> r.Ok? && KindsAgree(t0, fs.entries)
  {
    ghost var t := fs.entries;
    if PrefixOnly(t0) {
      ReplaceSwapsRoot(d);
    }
    if PrefixOnly(t0) && NoClash(t0) {
      StepReady(t0, t, d, split.files);
    }
    r := CompareSubdirs(fs, d, split.dirs, split.files, md5);
    ReplaceStaysInReplica(d);
    StepStaysInReplica(t, fs.entries, d, ReplacePath(d));
    if r.Ok? && PrefixOnly(t0) {
      MirroredAfterStep(t0, t, fs.entries, d, split, pending, visited, md5);
    }
    if PrefixOnly(t0) && NoClash(t0) {
      KindsAgreeStep(t0, t, fs.entries, d);
    }
  }

  /** The bookkeeping of `os.walk`: `pending` holds the directories listed
      but not yet yielded, `visited` those yielded. Both hold source
      directories only; a directory is pending only once its parent was
      visited; visited directories are closed under parents; and every
      other source directory has an unvisited parent. */
  ghost predicate Frontier(t0: Tree, pending: set<Path>, visited: set<Path>)
  {
    pending <= SourceDirs(t0) && visited <= SourceDirs(t0) && pending !! visited &&
    (forall p :: p in pending && p != Source ==> Parent(p) in visited) &&
    (forall v :: v in visited && v != Source ==> Parent(v) in visited) &&
    (forall d :: d in SourceDirs(t0) && d !in visited && d !in pending ==> d != Source && Parent(d) !in visited)
  }

  /** `os.walk('source')` starts from `source` when it is a directory and
      yields nothing otherwise. */
  lemma FrontierStart(t0: Tree, pending: set<Path>)
    requires pending == if IsDir(t0, Source) then {Source} else {}
    ensures Frontier(t0, pending, {})
  {
  }

  /** Yielding `d` and queueing its sub-directories keeps the bookkeeping. */
  lemma FrontierStep(t0: Tree, pending: set<Path>, visited: set<Path>, d: Path, dirs: seq<Name>, children: set<Path>)
    requires Frontier(t0, pending, visited) && d in pending
    requires forall n :: n in dirs <==> IsDir(t0, d + [n])
    requires children == set n | n in dirs :: d + [n]
    ensures Frontier(t0, (pending - {d}) + children, visited + {d})
  {
    WalkChildren(t0, d, dirs, children, visited);
  }

  /** After directory `d` is mirrored, the directories visited before it
      still are. */
  lemma MirroredAfterStep(t0: Tree, t: Tree, t': Tree, d: Path, split: Split, pending: set<Path>, visited: set<Path>, md5: Hash)
    requires Frontier(t0, pending, visited) && d in pending
    requires forall v :: v in visited ==> MirroredDir(t0, t, v, md5)
    requires MirrorsOnly(t, t', d, Swap(d))
    requires forall q :: !(Replica <= q) ==> Get(t', q) == Get(t, q)
    requires forall q :: !(Replica <= q) ==> Get(t, q) == Get(t0, q)
    requires Lists(t0, d, split)
    requires IsDir(t', Swap(d))
    requires forall f :: f in split.files && IsFile(t, d + [f]) ==> Mirrored(t', d, Swap(d), f, md5)
    ensures forall v :: v in visited + {d} ==> MirroredDir(t0, t', v, md5)
  {
    forall v | v in visited ensures MirroredDir(t0, t', v, md5) {
      VisitedAncestors(visited, v, d);
      MirroredDirStep(t0, t, t', d, v, md5);
    }
    forall f | IsFile(t0, d + [f]) ensures Mirrored(t', d, Swap(d), f, md5) {
      SourceIsNotReplica(d + [f]);
      assert Get(t, d + [f]) == Get(t0, d + [f]);
    }
  }

  /** A path below `source` is not below `replica`. */
  lemma SourceIsNotReplica(d: Path)
    requires Source <= d
    ensures !(Replica <= d)
  {
    assert Source[0][0] != Replica[0][0];
  }

  /** The walk lists `d` as it was at the start: nothing below `source`
      changes. */
  lemma SourceListing(t0: Tree, t: Tree, d: Path)
    requires d in SourceDirs(t0)
    requires forall q :: !(Replica <= q) ==> Get(t, q) == Get(t0, q)
    ensures IsDir(t, d)
    ensures forall split :: Lists(t, d, split) ==> Lists(t0, d, split)
  {
    SourceIsNotReplica(d);
    assert Get(t, d) == Get(t0, d);
    forall n ensures Get(t, d + [n]) == Get(t0, d + [n]) {
      SourceIsNotReplica(d + [n]);
    }
  }

  /** What one `compare_subdirs` call changes lies under `replica`. */
  lemma StepStaysInReplica(t: Tree, t': Tree, d: Path, rp: Path)
    requires WellFormed(t) && Replica <= rp
    requires MirrorsOnly(t, t', d, rp)
    ensures forall q :: !(Replica <= q) ==> Get(t', q) == Get(t, q)
  {
    forall q | !(Replica <= q) ensures Get(t', q) == Get(t, q) {
      PrefixesComparable(Replica, q, rp);
    }
  }

  /** The replica position keeps the prefix order of source paths. */
  lemma SwapPrefix(a: Path, b: Path)
    requires Source <= a && Source <= b
    ensures Swap(a) <= Swap(b) <==> a <= b
  {
    if Swap(a) <= Swap(b) {
      assert forall i :: 1 <= i < |a| ==> a[i] == Swap(a)[i] == Swap(b)[i] == b[i];
    }
    if a <= b {
      assert forall i :: 1 <= i < |a| ==> Swap(a)[i] == a[i] == b[i] == Swap(b)[i];
    }
  }

  /** A directory that is an ancestor of a visited one was visited. */
  lemma {:induction false} VisitedAncestors(visited: set<Path>, v: Path, d: Path)
    requires forall w :: w in visited ==> Source <= w
    requires forall w :: w in visited && w != Source ==> Parent(w) in visited
    requires v in visited && Source <= d
    ensures d <= v ==> d in visited
    decreases |v|
  {
    if d <= v && d != v {
      assert v != Source;
      assert d <= Parent(v);
      VisitedAncestors(visited, Parent(v), d);
    }
  }

  /** Mirroring `d` leaves a mirrored directory `v` mirrored unless `d` is
      `v` or above it. */
  lemma MirroredDirStep(t0: Tree, t: Tree, t': Tree, d: Path, v: Path, md5: Hash)
    requires d in SourceDirs(t0) && !(d <= v)
    requires MirroredDir(t0, t, v, md5)
    requires MirrorsOnly(t, t', d, Swap(d))
    requires forall q :: !(Replica <= q) ==> Get(t', q) == Get(t, q)
    ensures MirroredDir(t0, t', v, md5)
  {
    SwapPrefix(d, v);
    forall f | IsFile(t0, v + [f]) ensures Mirrored(t', v, Swap(v), f, md5) {
      SourceIsNotReplica(v + [f]);
      SwapPrefix(d, v + [f]);
      assert Swap(v) + [f] == Swap(v + [f]);
      assert d != v + [f];
      assert d <= v + [f] ==> d <= v by {
        PrefixesComparable(d, v, v + [f]);
      }
    }
  }

  /** Under `KindsAgree`, `compare_subdirs` finds directory `d` ready. */
  lemma StepReady(t0: Tree, t: Tree, d: Path, files: seq<Name>)
    requires WellFormed(t0) && WellFormed(t)
    requires d in SourceDirs(t0) && KindsAgree(t0, t)
    requires forall q :: !(Replica <= q) ==> Get(t, q) == Get(t0, q)
    requires forall f :: f in files ==> IsFile(t0, d + [f])
    ensures SubdirReady(t, d, Swap(d), files)
  {
    SourceIsNotReplica(d);
    assert Get(t, d) == Get(t0, d);
    assert !(d <= Swap(d)) by {
      assert d[0] != Swap(d)[0] by { assert Source[0][0] != Replica[0][0]; }
    }
    forall f | f in files ensures IsFile(t, d + [f]) && !IsDir(t, Swap(d) + [f]) {
      SourceIsNotReplica(d + [f]);
      assert Get(t, d + [f]) == Get(t0, d + [f]);
      assert Swap(d) + [f] == Swap(d + [f]);
      assert Source <= d + [f] && d + [f] in t0;
    }
    AncestorsAreDirs(t0, d);
    forall q | q < Swap(d) ensures !IsFile(t, q) {
      if q != [] {
        assert q[0] == Swap(d)[0];
        var a := Source + q[1..];
        assert q == Swap(a);
        SwapPrefix(a, d);
        assert a < d;
        assert IsDir(t0, a);
      }
    }
  }

  /** Mirroring `d` keeps `KindsAgree`: what it writes at a replica
      position comes from the matching source position, and what it creates
      above are directories of source ancestors. */
  lemma KindsAgreeStep(t0: Tree, t: Tree, t': Tree, d: Path)
    requires WellFormed(t0)
    requires d in SourceDirs(t0) && KindsAgree(t0, t)
    requires forall q :: !(Replica <= q) ==> Get(t, q) == Get(t0, q)
    requires MirrorsOnly(t, t', d, Swap(d))
    ensures KindsAgree(t0, t')
  {
    AncestorsAreDirs(t0, d);
    forall s | Source <= s && s in t0 && Swap(s) in t'
      ensures t'[Swap(s)] == Dir <==> t0[s] == Dir
    {
      SwapPrefix(d, s);
      SwapPrefix(s, d);
      if Get(t', Swap(s)) == Get(t, Swap(s)) {
        assert Swap(s) in t;
      } else if Swap(d) <= Swap(s) {
        assert Swap(s)[|Swap(d)|..] == s[|d|..];
        assert d + s[|d|..] == s;
        SourceIsNotReplica(s);
        assert Get(t, s) == Get(t0, s);
      } else {
        assert Swap(s) < Swap(d);
        assert s < d;
        assert IsDir(t0, s);
      }
    }
  }

  /** The walk's new pending directories are unvisited source directories
      whose parent is `d`. */
  lemma WalkChildren(t0: Tree, d: Path, dirs: seq<Name>, children: set<Path>, visited: set<Path>)
    requires d in SourceDirs(t0) && d !in visited
    requires forall n :: n in dirs <==> IsDir(t0, d + [n])
    requires forall c :: c in children <==> exists n :: n in dirs && c == d + [n]
    requires forall w :: w in visited ==> Source <= w
    requires forall w :: w in visited && w != Source ==> Parent(w) in visited
    ensures children <= SourceDirs(t0) && children !! visited + {d}
    ensures forall c :: c in children ==> c != Source && Parent(c) == d
    ensures forall c :: c in SourceDirs(t0) && c != Source && Parent(c) == d ==> c in children
  {
    forall c | c in children ensures c in SourceDirs(t0) && c !in visited + {d} && c != Source && Parent(c) == d {
      var n :| n in dirs && c == d + [n];
      assert Parent(c) == d;
    }
    forall c | c in SourceDirs(t0) && c != Source && Parent(c) == d ensures c in children {
      assert c == d + [c[|c| - 1]];
    }
  }

  /** When nothing is pending, every source directory was visited. */
  lemma AllVisited(t0: Tree, visited: set<Path>)
    requires WellFormed(t0) && Frontier(t0, {}, visited)
    ensures SourceDirs(t0) <= visited
  {
    forall d | d in SourceDirs(t0) ensures d in visited {
      AllVisitedFrom(t0, visited, d);
    }
  }

  lemma {:induction false} AllVisitedFrom(t0: Tree, visited: set<Path>, d: Path)
    requires WellFormed(t0)
    requires forall d :: d in SourceDirs(t0) && d !in visited ==> d != Source && Parent(d) !in visited
    requires d in SourceDirs(t0)
    ensures d in visited
    decreases |d|
  {
    if d != Source {
      assert IsDir(t0, Parent(d));
      AllVisitedFrom(t0, visited, Parent(d));
    }
  }
}
