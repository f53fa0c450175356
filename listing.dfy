/** How both scripts see one directory: `os.walk` splits a directory's
    listing into sub-directory names and the remaining names (main.py:15,
    test.py:44), and test.py lists the replica the same way by hand with
    `os.listdir`, `os.path.isdir` and `os.path.isfile` (test.py:8). */
module Listing {
  import opened Fs

  /** The names of the sub-directories of `p`. */
  function DirNames(t: Tree, p: Path): (names: set<Name>)
    ensures forall n :: n in names <==> IsDir(t, p + [n])
  {
    set n | n in ChildNames(t, p) && IsDir(t, p + [n])
  }

  /** The names of the regular files in `p`. */
  function FileNames(t: Tree, p: Path): (names: set<Name>)
    ensures forall n :: n in names <==> IsFile(t, p + [n])
  {
    set n | n in ChildNames(t, p) && IsFile(t, p + [n])
  }

  /** `set(names)` */
  function AsSet(s: seq<Name>): (r: set<Name>)
    ensures forall n :: n in r <==> n in s
  {
    set n | n in s
  }

  /** One directory, split as `os.walk` splits it. */
  datatype Split = Split(dirs: seq<Name>, files: seq<Name>)

  /** The split is a faithful, duplicate-free account of directory `p`. */
  ghost predicate Lists(t: Tree, p: Path, s: Split)
  {
    Distinct(s.dirs) && Distinct(s.files) &&
    (forall n :: n in s.dirs <==> IsDir(t, p + [n])) &&
    (forall n :: n in s.files <==> IsFile(t, p + [n]))
  }

  /** A list holds each name at most once exactly when its multiset does. */
  lemma {:induction false} DistinctCounts(s: seq<Name>)
    ensures Distinct(s) <==> forall x :: multiset(s)[x] <= 1
  {
    if s != [] {
      var init, y := s[..|s| - 1], s[|s| - 1];
      assert s == init + [y];
      DistinctCounts(init);
      if Distinct(s) {
        assert Distinct(init);
        assert forall k :: 0 <= k < |init| ==> init[k] == s[k] != s[|s| - 1];
        assert y !in init;
      } else {
        var i, j :| 0 <= i < j < |s| && s[i] == s[j];
        if j < |s| - 1 {
          assert init[i] == init[j];
          assert !Distinct(init);
          var x :| multiset(init)[x] > 1;
          assert multiset(s)[x] == multiset(init)[x] + multiset([y])[x];
        } else {
          assert s[i] in init;
          assert multiset(s)[y] == multiset(init)[y] + 1;
        }
      }
    }
  }

  /** Reordering a duplicate-free list keeps it duplicate-free with the same
      names. */
  lemma PermutationKeepsDistinct(a: seq<Name>, b: seq<Name>)
    requires multiset(a) == multiset(b) && Distinct(a)
    ensures Distinct(b)
    ensures forall x :: x in a <==> x in b
  {
    DistinctCounts(a);
    DistinctCounts(b);
    forall x ensures x in a <==> x in b {
      assert x in a <==> x in multiset(a);
      assert x in b <==> x in multiset(b);
    }
  }

  /** Lists directory `p` and classifies each entry, keeping the listing's
      order. Listing something that is not a directory fails as
      `os.listdir` does. */
  method ScanDir(fs: FileSystem, p: Path) returns (r: Result<Split>)
    ensures r.Success? <==> IsDir(fs.entries, p)
    ensures r.Failure? ==> r.error == (if p in fs.entries then NotADirectory else MissingError(fs.entries, p))
    ensures r.Success? ==> Lists(fs.entries, p, r.value)
  {
    var listed := fs.ListDir(p);
    if listed.Failure? {
      return Failure(listed.error);
    }
    var names := listed.value;
    var dirs: seq<Name> := [];
    var files: seq<Name> := [];
    for i := 0 to |names|
      invariant Distinct(dirs) && Distinct(files)
      invariant forall n :: n in dirs <==> n in names[..i] && IsDir(fs.entries, p + [n])
      invariant forall n :: n in files <==> n in names[..i] && IsFile(fs.entries, p + [n])
    {
      assert names[..i + 1] == names[..i] + [names[i]];
      assert names[i] !in names[..i];
      var isDir := fs.IsDirectory(p + [names[i]]);
      var isFile := fs.IsRegularFile(p + [names[i]]);
      if isDir {
        dirs := dirs + [names[i]];
      } else if isFile {
        files := files + [names[i]];
      }
    }
    assert names[..|names|] == names;
    return Success(Split(dirs, files));
  }
}
