/** The filesystem that both scripts act on, and the primitives they call:
    `os.mkdir`, `os.rmdir`, `os.remove`, `os.rename`, `os.listdir`,
    `os.path.exists`/`isdir`/`isfile`, `shutil.copyfile` and
    `shutil.copytree`. A tree maps each path (the list of its components,
    relative to the working directory `[]`) to a directory or to a file's
    bytes. A primitive either succeeds with a new tree or fails with the
    exception Python raises, leaving the tree as it was. */
module Fs {

  newtype byte = b: int | 0 <= b < 256

  type Name = string
  type Path = seq<Name>

  datatype Node = Dir | File(content: seq<byte>)

  type Tree = map<Path, Node>

  /** The exceptions the primitives raise: FileExistsError,
      FileNotFoundError, NotADirectoryError, IsADirectoryError, OSError with
      ENOTEMPTY or EINVAL, shutil.SameFileError, and TypeError. */
  datatype Error =
    | FileExists
    | FileNotFound
    | NotADirectory
    | IsADirectory
    | DirectoryNotEmpty
    | InvalidArgument
    | SameFile
    | TypeError

  datatype Option<T> = None | Some(value: T)

  datatype Result<T> = Success(value: T) | Failure(error: Error)

  /** Whether a statement of the scripts completed or raised. */
  datatype Outcome = Ok | Fail(error: Error)

  /** Raised by the operating-system layer (an `OSError` or a `shutil`
      error), as opposed to a `TypeError` of the script itself. */
  predicate IsOsError(e: Error)
  {
    e != TypeError
  }

  function OutcomeOf(r: Result<Tree>): Outcome
  {
    if r.Success? then Ok else Fail(r.error)
  }

  /** The tree after attempting an operation: the new tree on success, the
      old one on failure. */
  function TreeAfter(t: Tree, r: Result<Tree>): Tree
  {
    if r.Success? then r.value else t
  }

  /** The two trees the scripts work on, relative to the working
      directory. */
  const Source: Path := ["source"]
  const Replica: Path := ["replica"]

  function Parent(p: Path): Path
    requires p != []
  {
    p[..|p| - 1]
  }

  function Get(t: Tree, p: Path): Option<Node>
  {
    if p in t then Some(t[p]) else None
  }

  /** Two trees that agree at every path are the same tree. */
  lemma GetExtensional(t: Tree, t': Tree)
    requires forall q :: Get(t, q) == Get(t', q)
    ensures t == t'
  {
    assert forall q :: q in t <==> q in t' by {
      forall q ensures q in t <==> q in t' {
        assert Get(t, q) == Get(t', q);
      }
    }
    forall q | q in t ensures t[q] == t'[q] {
      assert Get(t, q) == Get(t', q);
    }
  }

  predicate IsDir(t: Tree, p: Path)
  {
    p in t && t[p] == Dir
  }

  predicate IsFile(t: Tree, p: Path)
  {
    p in t && t[p].File?
  }

  /** The working directory exists, and every other entry sits in a
      directory. */
  predicate WellFormed(t: Tree)
  {
    IsDir(t, []) &&
    forall p {:trigger IsDir(t, Parent(p))} :: p in t && p != [] ==> IsDir(t, Parent(p))
  }

  /** No name occurs twice. */
  predicate Distinct(s: seq<Name>)
  {
    forall i, j :: 0 <= i < j < |s| ==> s[i] != s[j]
  }

  /** Something lies strictly below `p`. */
  predicate HasEntries(t: Tree, p: Path)
  {
    exists q :: q in t && p < q
  }

  /** `p` and everything below it. */
  function Subtree(t: Tree, p: Path): set<Path>
  {
    set q | q in t && p <= q
  }

  /** The names listed by `os.listdir(p)`. */
  function ChildNames(t: Tree, p: Path): (names: set<Name>)
    ensures forall n :: n in names <==> p + [n] in t
  {
    var names := set q | q in t && |q| == |p| + 1 && p <= q :: q[|p|];
    assert forall n :: p + [n] in t ==> n in names by {
      forall n | p + [n] in t ensures n in names {
        var q := p + [n];
        assert |q| == |p| + 1 && p <= q && q[|p|] == n;
      }
    }
    assert forall n :: n in names ==> p + [n] in t by {
      forall n | n in names ensures p + [n] in t {
        var q :| q in t && |q| == |p| + 1 && p <= q && q[|p|] == n;
        assert q == p + [n];
      }
    }
    names
  }

  lemma SuffixInjective(src: Path, dst: Path)
    ensures forall q1, q2 :: src <= q1 && src <= q2 && dst + q1[|src|..] == dst + q2[|src|..] ==> q1 == q2
  {
    forall q1, q2 | src <= q1 && src <= q2 && dst + q1[|src|..] == dst + q2[|src|..]
      ensures q1 == q2
    {
      assert q1[|src|..] == (dst + q1[|src|..])[|dst|..];
      assert q2[|src|..] == (dst + q2[|src|..])[|dst|..];
      assert q1 == src + q1[|src|..];
      assert q2 == src + q2[|src|..];
    }
  }

  /** The subtree at `src`, placed at `dst`. */
  function Copied(t: Tree, src: Path, dst: Path): (c: Tree)
    ensures forall s :: Get(c, dst + s) == Get(t, src + s)
    ensures forall p :: p in c ==> dst <= p
  {
    SuffixInjective(src, dst);
    var c := map q | q in t && src <= q :: dst + q[|src|..] := t[q];
    assert forall s :: Get(c, dst + s) == Get(t, src + s) by {
      forall s ensures Get(c, dst + s) == Get(t, src + s) {
        var q := src + s;
        assert q[|src|..] == s;
        if q in t {
          assert dst + s in c;
        }
      }
    }
    c
  }

  /** The missing directories above `p`, as `os.makedirs` creates them. */
  function MissingAncestors(t: Tree, p: Path): (a: Tree)
    ensures forall q :: q in a <==> q < p && q !in t
    ensures forall q :: q in a ==> a[q] == Dir
  {
    var above := set i | 0 <= i < |p| :: p[..i];
    assert forall q :: q < p ==> q in above by {
      forall q | q < p ensures q in above {
        assert q == p[..|q|];
      }
    }
    map q | q in above && q !in t :: Dir
  }

  /** In a well-formed tree, everything above an entry is a directory. */
  lemma AncestorsAreDirs(t: Tree, p: Path)
    requires WellFormed(t) && p in t
    ensures forall q :: q < p ==> IsDir(t, q)
    decreases |p|
  {
    if p != [] {
      assert IsDir(t, Parent(p));
      AncestorsAreDirs(t, Parent(p));
      forall q | q < p ensures IsDir(t, q) {
        if q != Parent(p) { assert q < Parent(p); }
      }
    }
  }

  /** Two prefixes of one path are prefixes of each other. */
  lemma PrefixesComparable(a: Path, b: Path, p: Path)
    ensures a <= p && b <= p ==> a <= b || b <= a
  {
    if a <= p && b <= p {
      if |a| <= |b| { assert a == b[..|a|]; } else { assert b == a[..|b|]; }
    }
  }

  // ---------------------------------------------------------------------
  // The primitives, as functions from the tree before the call.
  // ---------------------------------------------------------------------

  /** The error a call raises for a path that does not exist: POSIX reports
      ENOTDIR (`NotADirectoryError`) when a regular file stands on the way
      to it, and ENOENT (`FileNotFoundError`) otherwise. */
  function MissingError(t: Tree, p: Path): (e: Error)
    ensures e == NotADirectory <==> exists q :: q < p && IsFile(t, q)
    ensures e != NotADirectory ==> e == FileNotFound
  {
    if exists q :: q in t && q < p && IsFile(t, q) then NotADirectory else FileNotFound
  }

  /** A missing path whose parent exists: the call fails with
      `NotADirectoryError` exactly when that parent is a file. */
  lemma MissingUnderParent(t: Tree, p: Path)
    requires WellFormed(t) && p != [] && p !in t && Parent(p) in t
    ensures MissingError(t, p) == if IsFile(t, Parent(p)) then NotADirectory else FileNotFound
  {
    AncestorsAreDirs(t, Parent(p));
    if IsFile(t, Parent(p)) {
      assert Parent(p) < p;
    } else {
      forall q | q < p ensures !IsFile(t, q) {
        if |q| < |p| - 1 {
          assert q == Parent(p)[..|q|];
          assert q < Parent(p);
          assert IsDir(t, q);
        } else {
          assert q == Parent(p);
        }
      }
    }
  }

  /** `os.mkdir(p)`: creates one empty directory whose parent exists. */
  function MkdirOp(t: Tree, p: Path): (r: Result<Tree>)
    ensures WellFormed(t) ==> (r.Success? <==> p !in t && IsDir(t, Parent(p)))
    ensures r.Success? ==> p !in t && IsDir(r.value, p)
    ensures r.Success? ==> forall q :: q != p ==> Get(r.value, q) == Get(t, q)
    ensures WellFormed(t) && r.Success? ==> WellFormed(r.value)
    ensures p !in t && p != [] && Parent(p) !in t ==> r == Failure(MissingError(t, Parent(p)))
  {
    if p in t || p == [] then Failure(FileExists)
    else if Parent(p) !in t then Failure(MissingError(t, Parent(p)))
    else if t[Parent(p)].File? then Failure(NotADirectory)
    else
      var t' := t[p := Dir];
      assert WellFormed(t) ==> WellFormed(t') by {
        if WellFormed(t) {
          forall q | q in t' && q != [] ensures IsDir(t', Parent(q)) {
            if q != p { assert IsDir(t, Parent(q)); }
          }
        }
      }
      Success(t')
  }

  /** `os.rmdir(p)`: removes an empty directory. */
  function RmdirOp(t: Tree, p: Path): (r: Result<Tree>)
    ensures r.Success? <==> IsDir(t, p) && p != [] && !HasEntries(t, p)
    ensures r.Success? ==> p !in r.value
    ensures r.Success? ==> forall q :: q != p ==> Get(r.value, q) == Get(t, q)
    ensures r.Failure? && p in t && t[p] == Dir && p != [] ==> r.error == DirectoryNotEmpty
    ensures WellFormed(t) && r.Success? ==> WellFormed(r.value)
    ensures p !in t ==> r == Failure(MissingError(t, p))
  {
    if p !in t then Failure(MissingError(t, p))
    else if t[p].File? then Failure(NotADirectory)
    else if p == [] then Failure(InvalidArgument)
    else if HasEntries(t, p) then Failure(DirectoryNotEmpty)
    else
      var t' := t - {p};
      assert WellFormed(t) ==> WellFormed(t') by {
        if WellFormed(t) {
          forall q | q in t' && q != [] ensures IsDir(t', Parent(q)) {
            assert IsDir(t, Parent(q));
            assert Parent(q) < q;
          }
        }
      }
      Success(t')
  }

  /** `os.remove(p)`: removes a file. */
  function RemoveOp(t: Tree, p: Path): (r: Result<Tree>)
    ensures r.Success? <==> IsFile(t, p)
    ensures r.Success? ==> p !in r.value
    ensures r.Success? ==> forall q :: q != p ==> Get(r.value, q) == Get(t, q)
    ensures WellFormed(t) && r.Success? ==> WellFormed(r.value)
    ensures p !in t ==> r == Failure(MissingError(t, p))
  {
    if p !in t then Failure(MissingError(t, p))
    else if t[p].Dir? then Failure(IsADirectory)
    else
      var t' := t - {p};
      assert WellFormed(t) ==> WellFormed(t') by {
        if WellFormed(t) {
          forall q | q in t' && q != [] ensures IsDir(t', Parent(q)) {
            assert IsDir(t, Parent(q));
          }
        }
      }
      Success(t')
  }

  /** `shutil.copyfile(src, dst)`: writes the bytes of file `src` to `dst`,
      overwriting a file that is there. */
  function CopyFileOp(t: Tree, src: Path, dst: Path): (r: Result<Tree>)
    ensures WellFormed(t) ==>
              (r.Success? <==> IsFile(t, src) && src != dst && !IsDir(t, dst) && IsDir(t, Parent(dst)))
    ensures r.Success? ==> IsFile(t, src) && dst in r.value && r.value[dst] == t[src]
    ensures r.Success? ==> forall q :: q != dst ==> Get(r.value, q) == Get(t, q)
    ensures WellFormed(t) && r.Success? ==> WellFormed(r.value)
    ensures src !in t ==> r == Failure(MissingError(t, src))
    ensures IsFile(t, src) && src != dst && dst !in t && dst != [] && Parent(dst) !in t ==>
              r == Failure(MissingError(t, Parent(dst)))
  {
    if src == dst && src in t then Failure(SameFile)
    else if src !in t then Failure(MissingError(t, src))
    else if t[src].Dir? then Failure(IsADirectory)
    else if dst in t && t[dst].Dir? then Failure(IsADirectory)
    else if dst == [] then Failure(FileNotFound)
    else if Parent(dst) !in t then Failure(MissingError(t, Parent(dst)))
    else if t[Parent(dst)].File? then Failure(NotADirectory)
    else
      var t' := t[dst := t[src]];
      assert WellFormed(t) ==> WellFormed(t') by {
        if WellFormed(t) {
          forall q | q in t' && q != [] ensures IsDir(t', Parent(q)) {
            if q != dst {
              assert IsDir(t, Parent(q));
              assert Parent(q) != dst;
            }
          }
        }
      }
      Success(t')
  }

  /** The tree after moving the subtree at `src` to `dst`. */
  function Moved(t: Tree, src: Path, dst: Path): Tree
  {
    (t - Subtree(t, src)) + Copied(t, src, dst)
  }

  /** When `os.rename(src, dst)` with distinct paths succeeds on POSIX: `src`
      exists and is not above `dst`; an existing `dst` is of the same kind
      and, if a directory, empty; otherwise the directory that would hold
      `dst` exists. */
  predicate RenameAllowed(t: Tree, src: Path, dst: Path)
  {
    src in t && src != dst && !(src < dst) &&
    (dst in t ==> (t[dst] == Dir) == (t[src] == Dir) && !HasEntries(t, dst)) &&
    (dst !in t ==> dst != [] && IsDir(t, Parent(dst)))
  }

  /** `os.rename(src, dst)`. Renaming a path to itself changes nothing. */
  function RenameOp(t: Tree, src: Path, dst: Path): (r: Result<Tree>)
    ensures r.Success? <==> src in t && (src == dst || RenameAllowed(t, src, dst))
    ensures r.Success? && src == dst ==> r.value == t
    ensures WellFormed(t) && r.Success? && src != dst ==> MovedTo(t, src, dst, r.value)
    ensures src !in t ==> r == Failure(MissingError(t, src))
    ensures r.Success? ==> forall q :: !(src <= q) && !(dst <= q) ==> Get(r.value, q) == Get(t, q)
    ensures WellFormed(t) && r.Success? ==> WellFormed(r.value)
  {
    if src !in t then Failure(MissingError(t, src))
    else if src == dst then Success(t)
    else if src < dst then Failure(InvalidArgument)
    else if t[src] == Dir && dst in t && t[dst].File? then Failure(NotADirectory)
    else if t[src].File? && dst in t && t[dst] == Dir then Failure(IsADirectory)
    else if dst in t && HasEntries(t, dst) then Failure(DirectoryNotEmpty)
    else if dst !in t && dst == [] then Failure(FileNotFound)
    else if dst !in t && Parent(dst) !in t then Failure(MissingError(t, Parent(dst)))
    else if dst !in t && t[Parent(dst)].File? then Failure(NotADirectory)
    else
      MovedOutside(t, src, dst);
      if WellFormed(t) then
        RenameGeometry(t, src, dst);
        RenameWellFormed(t, src, dst);
        Success(Moved(t, src, dst))
      else
        Success(Moved(t, src, dst))
  }

  /** After a rename: what was at `src` (and below) is at `dst`, and nothing
      is left at or below `src`. */
  ghost predicate MovedTo(t: Tree, src: Path, dst: Path, t': Tree)
  {
    (forall s :: Get(t', dst + s) == Get(t, src + s)) &&
    (forall q :: src <= q ==> q !in t')
  }

  lemma MovedOutside(t: Tree, src: Path, dst: Path)
    ensures forall q :: !(src <= q) && !(dst <= q) ==> Get(Moved(t, src, dst), q) == Get(t, q)
  {
  }

  /** Inside a copied subtree every entry but its top has its parent
      directory copied too. */
  lemma CopiedParents(t: Tree, src: Path, dst: Path)
    requires WellFormed(t)
    ensures forall p :: p in Copied(t, src, dst) && p != dst ==> IsDir(Copied(t, src, dst), Parent(p))
  {
    var c := Copied(t, src, dst);
    forall p | p in c && p != dst ensures IsDir(c, Parent(p)) {
      var s := p[|dst|..];
      assert p == dst + s;
      assert Get(c, dst + s) == Get(t, src + s);
      assert s != [];
      var s' := s[..|s| - 1];
      assert Parent(src + s) == src + s';
      assert Parent(p) == dst + s';
      assert IsDir(t, Parent(src + s));
      assert Get(c, dst + s') == Get(t, src + s');
    }
  }

  /** Where `src` and `dst` stand when a rename between them is allowed. */
  lemma RenameGeometry(t: Tree, src: Path, dst: Path)
    requires WellFormed(t) && RenameAllowed(t, src, dst)
    ensures src != [] && dst != []
    ensures !(dst <= src) && !(src <= dst)
    ensures IsDir(t, Parent(dst))
    ensures forall q :: q in t ==> !(dst < q)
  {
    AncestorsAreDirs(t, src);
    assert src != [] by { assert [] <= dst; }
    assert dst != [] by { assert [] < src; }
    assert dst < src ==> IsDir(t, dst) && HasEntries(t, dst);
    assert dst in t ==> IsDir(t, Parent(dst));
    forall q | q in t ensures !(dst < q) {
      AncestorsAreDirs(t, q);
      assert dst < q ==> IsDir(t, dst) && HasEntries(t, dst);
    }
  }

  /** What a rename leaves at `q`: the moved entry under `dst`, nothing
      under `src`, and the old entry elsewhere. */
  function MovedAt(t: Tree, src: Path, dst: Path, q: Path): Option<Node>
  {
    if dst <= q then Get(t, src + q[|dst|..])
    else if src <= q then None
    else Get(t, q)
  }

  lemma MovedCharacterized(t: Tree, src: Path, dst: Path)
    requires src in t
    requires forall q :: q in t ==> !(dst < q)
    ensures forall q :: Get(Moved(t, src, dst), q) == MovedAt(t, src, dst, q)
  {
    var c := Copied(t, src, dst);
    forall q ensures Get(Moved(t, src, dst), q) == MovedAt(t, src, dst, q) {
      if dst <= q {
        var s := q[|dst|..];
        assert q == dst + s;
        assert Get(c, dst + s) == Get(t, src + s);
        assert q in t ==> q == dst;
        assert q == dst ==> src + s == src;
      } else {
        assert q !in c;
      }
    }
  }

  lemma RenameWellFormed(t: Tree, src: Path, dst: Path)
    requires WellFormed(t) && RenameAllowed(t, src, dst)
    ensures WellFormed(Moved(t, src, dst))
    ensures MovedTo(t, src, dst, Moved(t, src, dst))
  {
    RenameGeometry(t, src, dst);
    MovedCharacterized(t, src, dst);
    var m := Moved(t, src, dst);
    RenameMovedTo(t, src, dst, m);
    forall p | p in m && p != [] ensures IsDir(m, Parent(p)) {
      RenameParent(t, src, dst, m, p);
    }
    assert Get(m, []) == Get(t, []);
  }

  lemma RenameMovedTo(t: Tree, src: Path, dst: Path, m: Tree)
    requires !(dst <= src) && !(src <= dst)
    requires forall q :: Get(m, q) == MovedAt(t, src, dst, q)
    ensures MovedTo(t, src, dst, m)
  {
    forall q | src <= q ensures q !in m {
      PrefixesComparable(src, dst, q);
      assert Get(m, q) == None;
    }
    forall s ensures Get(m, dst + s) == Get(t, src + s) {
      assert (dst + s)[|dst|..] == s;
      assert Get(m, dst + s) == MovedAt(t, src, dst, dst + s);
    }
  }

  lemma RenameParent(t: Tree, src: Path, dst: Path, m: Tree, p: Path)
    requires WellFormed(t)
    requires src != [] && dst != [] && !(dst <= src) && !(src <= dst)
    requires IsDir(t, Parent(dst))
    requires forall q :: q in t ==> !(dst < q)
    requires forall q :: Get(m, q) == MovedAt(t, src, dst, q)
    requires p in m && p != []
    ensures IsDir(m, Parent(p))
  {
    var pp := Parent(p);
    assert pp < p;
    assert Get(m, p) == MovedAt(t, src, dst, p);
    assert Get(m, pp) == MovedAt(t, src, dst, pp);
    if p == dst {
      assert !(src <= pp) by { assert pp < dst; }
      assert !(dst <= pp);
    } else if dst <= p {
      var s := p[|dst|..];
      assert s != [] && p == dst + s;
      assert src + s in t;
      assert IsDir(t, Parent(src + s));
      assert dst <= pp;
      assert pp[|dst|..] == s[..|s| - 1];
      assert Parent(src + s) == src + pp[|dst|..];
    } else {
      assert !(src <= p);
      assert p in t;
      assert IsDir(t, pp);
      assert !(src <= pp);
      assert !(dst <= pp);
    }
  }

  /** `shutil.copytree(src, dst)`: creates `dst` (and, as `os.makedirs`
      does, any missing directory above it) as a copy of directory `src`.
      It fails when `dst` already exists. */
  function CopyTreeOp(t: Tree, src: Path, dst: Path): (r: Result<Tree>)
    ensures r.Success? <==> CopyTreeAllowed(t, src, dst)
    ensures src !in t ==> r == Failure(MissingError(t, src))
    ensures WellFormed(t) && r.Success? ==> forall s :: Get(r.value, dst + s) == Get(t, src + s)
    ensures r.Success? ==> forall q :: !(dst <= q) && Get(r.value, q) != Get(t, q) ==>
                                         q < dst && q !in t && IsDir(r.value, q)
    ensures WellFormed(t) && r.Success? ==> WellFormed(r.value)
  {
    if src !in t then Failure(MissingError(t, src))
    else if t[src].File? then Failure(NotADirectory)
    else if dst in t then Failure(FileExists)
    else if exists q :: q in t && q < dst && IsFile(t, q) then Failure(NotADirectory)
    else if src < dst then Failure(InvalidArgument)
    else
      CopyTreeOutside(t, src, dst);
      if WellFormed(t) then
        CopyTreeWellFormed(t, src, dst);
        Success(t + MissingAncestors(t, dst) + Copied(t, src, dst))
      else
        Success(t + MissingAncestors(t, dst) + Copied(t, src, dst))
  }

  /** When `shutil.copytree(src, dst)` succeeds: `src` is a directory not
      above `dst`, `dst` does not exist, and no file stands above `dst`. */
  ghost predicate CopyTreeAllowed(t: Tree, src: Path, dst: Path)
  {
    IsDir(t, src) && dst !in t && !(src < dst) && forall q :: q < dst ==> !IsFile(t, q)
  }

  lemma CopyTreeOutside(t: Tree, src: Path, dst: Path)
    ensures forall q :: !(dst <= q) && Get(t + MissingAncestors(t, dst) + Copied(t, src, dst), q) != Get(t, q) ==>
                          q < dst && q !in t && IsDir(t + MissingAncestors(t, dst) + Copied(t, src, dst), q)
  {
  }

  /** Nothing exists below a path that does not exist. */
  lemma NothingBelowMissing(t: Tree, p: Path)
    requires WellFormed(t) && p !in t
    ensures forall q :: q in t ==> !(p <= q)
  {
    forall q | q in t ensures !(p <= q) {
      AncestorsAreDirs(t, q);
      assert p < q ==> IsDir(t, p);
      assert p <= q ==> p == q || p < q;
    }
  }

  lemma CopyTreeWellFormed(t: Tree, src: Path, dst: Path)
    requires WellFormed(t) && CopyTreeAllowed(t, src, dst)
    ensures WellFormed(t + MissingAncestors(t, dst) + Copied(t, src, dst))
    ensures forall s :: Get(t + MissingAncestors(t, dst) + Copied(t, src, dst), dst + s) == Get(t, src + s)
  {
    var a := MissingAncestors(t, dst);
    var c := Copied(t, src, dst);
    var t' := t + a + c;
    NothingBelowMissing(t, dst);
    forall s ensures Get(t', dst + s) == Get(t, src + s) {
      assert dst <= dst + s;
    }
    CopiedParents(t, src, dst);
    forall p | p in t' && p != [] ensures IsDir(t', Parent(p)) {
      CopyTreeParent(t, src, dst, p);
    }
    assert !(dst <= []);
  }

  lemma CopyTreeParent(t: Tree, src: Path, dst: Path, p: Path)
    requires WellFormed(t) && CopyTreeAllowed(t, src, dst)
    requires forall q :: q in t ==> !(dst <= q)
    requires forall q :: q in Copied(t, src, dst) && q != dst ==> IsDir(Copied(t, src, dst), Parent(q))
    requires p in t + MissingAncestors(t, dst) + Copied(t, src, dst) && p != []
    ensures IsDir(t + MissingAncestors(t, dst) + Copied(t, src, dst), Parent(p))
  {
    var a := MissingAncestors(t, dst);
    var c := Copied(t, src, dst);
    var pp := Parent(p);
    assert pp < p;
    if p in c && p != dst {
      assert IsDir(c, pp);
    } else if p == dst || p in a {
      assert pp < dst;
      assert pp !in c;
      assert pp in t ==> !IsFile(t, pp);
    } else {
      assert p in t;
      assert IsDir(t, pp);
      assert pp !in c;
    }
  }

  /** The state the scripts mutate: one filesystem, updated in place by each
      primitive. */
  class FileSystem {
    var entries: Tree

    ghost predicate Valid()
      reads this
    {
      WellFormed(entries)
    }

    constructor (t: Tree)
      requires WellFormed(t)
      ensures Valid() && entries == t
    {
      entries := t;
    }

    /** `os.path.exists(p)` */
    method Exists(p: Path) returns (b: bool)
      ensures b <==> p in entries
    {
      b := p in entries;
    }

    /** `os.path.isdir(p)` */
    method IsDirectory(p: Path) returns (b: bool)
      ensures b <==> IsDir(entries, p)
    {
      b := p in entries && entries[p] == Dir;
    }

    /** `os.path.isfile(p)` */
    method IsRegularFile(p: Path) returns (b: bool)
      ensures b <==> IsFile(entries, p)
    {
      b := p in entries && entries[p].File?;
    }

    /** `os.listdir(p)`: the names in directory `p`, each once, in an order
        the OS chooses. */
    method ListDir(p: Path) returns (r: Result<seq<Name>>)
      ensures r.Success? <==> IsDir(entries, p)
      ensures r.Failure? ==> r.error == (if p in entries then NotADirectory else MissingError(entries, p))
      ensures r.Success? ==> Distinct(r.value)
      ensures r.Success? ==> forall n :: n in r.value <==> p + [n] in entries
    {
      if p !in entries {
        return Failure(MissingError(entries, p));
      }
      if entries[p].File? {
        return Failure(NotADirectory);
      }
      var all := ChildNames(entries, p);
      var remaining := all;
      var names: seq<Name> := [];
      while remaining != {}
        invariant remaining <= all
        invariant Distinct(names)
        invariant forall n :: n in names <==> n in all && n !in remaining
        decreases remaining
      {
        var n :| n in remaining;
        names := names + [n];
        remaining := remaining - {n};
      }
      return Success(names);
    }

    method Mkdir(p: Path) returns (r: Outcome)
      requires Valid()
      modifies this
      ensures Valid()
      ensures r == OutcomeOf(MkdirOp(old(entries), p))
      ensures entries == TreeAfter(old(entries), MkdirOp(old(entries), p))
    {
      var next := MkdirOp(entries, p);
      r := OutcomeOf(next);
      entries := TreeAfter(entries, next);
    }

    method Rmdir(p: Path) returns (r: Outcome)
      requires Valid()
      modifies this
      ensures Valid()
      ensures r == OutcomeOf(RmdirOp(old(entries), p))
      ensures entries == TreeAfter(old(entries), RmdirOp(old(entries), p))
    {
      var next := RmdirOp(entries, p);
      r := OutcomeOf(next);
      entries := TreeAfter(entries, next);
    }

    method Remove(p: Path) returns (r: Outcome)
      requires Valid()
      modifies this
      ensures Valid()
      ensures r == OutcomeOf(RemoveOp(old(entries), p))
      ensures entries == TreeAfter(old(entries), RemoveOp(old(entries), p))
    {
      var next := RemoveOp(entries, p);
      r := OutcomeOf(next);
      entries := TreeAfter(entries, next);
    }

    method CopyFile(src: Path, dst: Path) returns (r: Outcome)
      requires Valid()
      modifies this
      ensures Valid()
      ensures r == OutcomeOf(CopyFileOp(old(entries), src, dst))
      ensures entries == TreeAfter(old(entries), CopyFileOp(old(entries), src, dst))
    {
      var next := CopyFileOp(entries, src, dst);
      r := OutcomeOf(next);
      entries := TreeAfter(entries, next);
    }

    method Rename(src: Path, dst: Path) returns (r: Outcome)
      requires Valid()
      modifies this
      ensures Valid()
      ensures r == OutcomeOf(RenameOp(old(entries), src, dst))
      ensures entries == TreeAfter(old(entries), RenameOp(old(entries), src, dst))
    {
      var next := RenameOp(entries, src, dst);
      r := OutcomeOf(next);
      entries := TreeAfter(entries, next);
    }

    method CopyTree(src: Path, dst: Path) returns (r: Outcome)
      requires Valid()
      modifies this
      ensures Valid()
      ensures r == OutcomeOf(CopyTreeOp(old(entries), src, dst))
      ensures entries == TreeAfter(old(entries), CopyTreeOp(old(entries), src, dst))
    {
      var next := CopyTreeOp(entries, src, dst);
      r := OutcomeOf(next);
      entries := TreeAfter(entries, next);
    }
  }
}
