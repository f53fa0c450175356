/** File contents and their MD5 digests: `calculate_md5`, `verify_content`
    and the removal loop at the end of `compare_files`. The two scripts carry
    identical copies of the first two (main.py:67-81, test.py:27-40), so they
    are modelled once. MD5 itself is not modelled: it is a parameter `md5`, a
    function from the bytes fed to the hasher to the hex digest. */
module Content {
  import opened Fs

  /** `hasher.hexdigest()` */
  type Digest = string

  /** `hashlib.md5` fed with some bytes, then asked for its hex digest. */
  type Hash = seq<byte> -> Digest

  /** The block size `calculate_md5` reads with. */
  const ChunkSize: nat := 4096

  /** The digest `calculate_md5(p)` returns, or the error `open(p, 'rb')`
      raises. */
  function FileDigest(t: Tree, p: Path, md5: Hash): (r: Result<Digest>)
    ensures r.Success? <==> IsFile(t, p)
    ensures r.Success? ==> r.value == md5(t[p].content)
    ensures p !in t ==> r == Failure(MissingError(t, p))
    ensures IsDir(t, p) ==> r == Failure(IsADirectory)
  {
    if p !in t then Failure(MissingError(t, p))
    else if t[p] == Dir then Failure(IsADirectory)
    else Success(md5(t[p].content))
  }

  function Flatten(chunks: seq<seq<byte>>): seq<byte>
  {
    if chunks == [] then [] else Flatten(chunks[..|chunks| - 1]) + chunks[|chunks| - 1]
  }

  /** A file opened for binary reading. */
  class Reader {
    const data: seq<byte>
    var pos: nat

    ghost predicate Valid()
      reads this
    {
      pos <= |data|
    }

    constructor (content: seq<byte>)
      ensures Valid() && data == content && pos == 0
    {
      data := content;
      pos := 0;
    }

    /** `f.read(n)`: the next at most `n` bytes; empty at end of file. */
    method Read(n: nat) returns (chunk: seq<byte>)
      requires Valid()
      modifies this
      ensures Valid()
      ensures pos == if old(pos) + n <= |data| then old(pos) + n else |data|
      ensures chunk == data[old(pos)..pos]
    {
      var end := if pos + n <= |data| then pos + n else |data|;
      chunk := data[pos..end];
      pos := end;
    }
  }

  /** A `hashlib.md5()` object: it remembers what it has been fed. */
  class Hasher {
    const md5: Hash
    var fed: seq<byte>

    constructor (md5: Hash)
      ensures this.md5 == md5 && fed == []
    {
      this.md5 := md5;
      fed := [];
    }

    /** `hasher.update(chunk)` */
    method Update(chunk: seq<byte>)
      modifies this
      ensures fed == old(fed) + chunk
    {
      fed := fed + chunk;
    }

    /** `hasher.hexdigest()` */
    method HexDigest() returns (d: Digest)
      ensures d == md5(fed)
    {
      d := md5(fed);
    }
  }

  /** Blocks as `calculate_md5` reads them: none empty, none longer than
      `ChunkSize`, all full but the last. */
  predicate Blocks(chunks: seq<seq<byte>>)
  {
    (forall i :: 0 <= i < |chunks| ==> 0 < |chunks[i]| <= ChunkSize) &&
    (forall i :: 0 <= i < |chunks| - 1 ==> |chunks[i]| == ChunkSize)
  }

  lemma BlocksAppend(chunks: seq<seq<byte>>, chunk: seq<byte>)
    requires Blocks(chunks) && 0 < |chunk| <= ChunkSize
    requires chunks != [] ==> |chunks[|chunks| - 1]| == ChunkSize
    ensures Blocks(chunks + [chunk])
  {
  }

  /** Feeding the bytes from `start` to `end` extends a prefix of `data`. */
  lemma FlattenAppend(chunks: seq<seq<byte>>, data: seq<byte>, start: nat, end: nat)
    requires start <= end <= |data| && Flatten(chunks) == data[..start]
    ensures Flatten(chunks + [data[start..end]]) == data[..end]
  {
    assert (chunks + [data[start..end]])[..|chunks|] == chunks;
  }

  /** `calculate_md5(p)`: reads the file in blocks of `ChunkSize` bytes until
      a read comes back empty, feeding each block to the hasher. The ghost
      `chunks` are the blocks fed: all full but the last, none empty, and
      together exactly the file's bytes, so the digest is that of the whole
      file. */
  method CalculateMd5(fs: FileSystem, p: Path, md5: Hash) returns (r: Result<Digest>, ghost chunks: seq<seq<byte>>)
    ensures r == FileDigest(fs.entries, p, md5)
    ensures r.Success? ==> Flatten(chunks) == fs.entries[p].content
    ensures forall i :: 0 <= i < |chunks| ==> 0 < |chunks[i]| <= ChunkSize
    ensures forall i :: 0 <= i < |chunks| - 1 ==> |chunks[i]| == ChunkSize
  {
    chunks := [];
    if p !in fs.entries {
      return Failure(MissingError(fs.entries, p)), chunks;
    }
    if fs.entries[p] == Dir {
      return Failure(IsADirectory), chunks;
    }
    var f := new Reader(fs.entries[p].content);
    var hasher := new Hasher(md5);
    while true
      invariant f.Valid() && f.data == fs.entries[p].content
      invariant hasher.md5 == md5
      invariant hasher.fed == Flatten(chunks) == f.data[..f.pos]
      invariant Blocks(chunks)
      invariant chunks != [] && |chunks[|chunks| - 1]| < ChunkSize ==> f.pos == |f.data|
      decreases |f.data| - f.pos
    {
      ghost var start := f.pos;
      var chunk := f.Read(ChunkSize);
      if chunk == [] {
        break;
      }
      hasher.Update(chunk);
      FlattenAppend(chunks, f.data, start, f.pos);
      BlocksAppend(chunks, chunk);
      chunks := chunks + [chunk];
    }
    assert f.data[..f.pos] == f.data;
    var d := hasher.HexDigest();
    return Success(d), chunks;
  }

  /** The file `name` exists in both roots and the two copies hash alike. */
  ghost predicate Mirrored(t: Tree, srcRoot: Path, repRoot: Path, name: Name, md5: Hash)
  {
    IsFile(t, srcRoot + [name]) && IsFile(t, repRoot + [name]) &&
    md5(t[srcRoot + [name]].content) == md5(t[repRoot + [name]].content)
  }

  /** `q` is `root/n` for one of the `names`. */
  predicate Among(q: Path, root: Path, names: set<Name>)
  {
    q != [] && Parent(q) == root && q[|q| - 1] in names
  }

  lemma AmongChild(root: Path, n: Name, names: set<Name>)
    ensures Among(root + [n], root, names) <==> n in names
  {
    assert Parent(root + [n]) == root;
  }

  lemma AmongAdd(root: Path, names: set<Name>, n: Name)
    ensures forall q :: Among(q, root, names + {n}) <==> Among(q, root, names) || q == root + [n]
  {
    AmongChild(root, n, names + {n});
    forall q | Among(q, root, names + {n}) && q[|q| - 1] == n ensures q == root + [n] {
      assert q == Parent(q) + [q[|q| - 1]];
    }
  }

  /** `verify_content(src_root, rep_root, name)`: hashes the source copy,
      then the replica copy, and copies the source over the replica only
      when the digests differ. */
  function VerifyContentOp(t: Tree, srcRoot: Path, repRoot: Path, name: Name, md5: Hash): (r: Result<Tree>)
    ensures WellFormed(t) ==>
              (r.Success? <==> IsFile(t, srcRoot + [name]) && IsFile(t, repRoot + [name]))
    ensures !IsFile(t, srcRoot + [name]) ==> r == Failure(FileDigest(t, srcRoot + [name], md5).error)
    ensures r.Success? ==> Mirrored(r.value, srcRoot, repRoot, name, md5)
    ensures r.Success? ==> forall q :: q != repRoot + [name] ==> Get(r.value, q) == Get(t, q)
    ensures r.Success? ==> Get(r.value, repRoot + [name]) in {Get(t, repRoot + [name]), Get(t, srcRoot + [name])}
    ensures r.Success? && r.value != t ==>
              FileDigest(t, srcRoot + [name], md5) != FileDigest(t, repRoot + [name], md5)
    ensures WellFormed(t) && r.Success? ==> WellFormed(r.value)
  {
    var src, rep := srcRoot + [name], repRoot + [name];
    var a := FileDigest(t, src, md5);
    if a.Failure? then Failure(a.error)
    else
      var b := FileDigest(t, rep, md5);
      if b.Failure? then Failure(b.error)
      else if a.value != b.value then
        assert src != rep;
        assert WellFormed(t) ==> IsDir(t, Parent(rep));
        CopyFileOp(t, src, rep)
      else Success(t)
  }

  method VerifyContent(fs: FileSystem, srcRoot: Path, repRoot: Path, name: Name, md5: Hash) returns (r: Outcome)
    requires fs.Valid()
    modifies fs
    ensures fs.Valid()
    ensures r == OutcomeOf(VerifyContentOp(old(fs.entries), srcRoot, repRoot, name, md5))
    ensures fs.entries == TreeAfter(old(fs.entries), VerifyContentOp(old(fs.entries), srcRoot, repRoot, name, md5))
  {
    var srcHash, _ := CalculateMd5(fs, srcRoot + [name], md5);
    if srcHash.Failure? {
      return Fail(srcHash.error);
    }
    var repHash, _ := CalculateMd5(fs, repRoot + [name], md5);
    if repHash.Failure? {
      return Fail(repHash.error);
    }
    if srcHash.value != repHash.value {
      r := fs.CopyFile(srcRoot + [name], repRoot + [name]);
    } else {
      r := Ok;
    }
  }

  /** `for name in names: os.remove(f'{root}/{name}')` (main.py:63-64 and
      test.py:23-24), stopping at the first error. Only `root/n` for the
      given names can change; on success each of them is gone, and success
      is certain when each of them is a file. */
  method RemoveFiles(fs: FileSystem, root: Path, names: set<Name>) returns (r: Outcome)
    requires fs.Valid()
    modifies fs
    ensures fs.Valid()
    ensures forall q :: !Among(q, root, names) ==> Get(fs.entries, q) == Get(old(fs.entries), q)
    ensures forall q :: IsDir(fs.entries, q) <==> IsDir(old(fs.entries), q)
    ensures r.Fail? ==> IsOsError(r.error)
    ensures r.Ok? ==> forall n :: n in names ==> root + [n] !in fs.entries
    ensures (forall n :: n in names ==> IsFile(old(fs.entries), root + [n])) ==> r.Ok?
    ensures names == {} ==> fs.entries == old(fs.entries)
  {
    var remaining := names;
    while remaining != {}
      invariant fs.Valid()
      invariant remaining <= names
      invariant forall q :: !Among(q, root, names - remaining) ==> Get(fs.entries, q) == Get(old(fs.entries), q)
      invariant forall q :: IsDir(fs.entries, q) <==> IsDir(old(fs.entries), q)
      invariant forall n :: n in names - remaining ==> root + [n] !in fs.entries
      invariant remaining == names ==> fs.entries == old(fs.entries)
      decreases remaining
    {
      var n :| n in remaining;
      AmongChild(root, n, names - remaining);
      r := fs.Remove(root + [n]);
      if r.Fail? {
        forall q | !Among(q, root, names) ensures Get(fs.entries, q) == Get(old(fs.entries), q) {
        }
        return;
      }
      remaining := remaining - {n};
      forall m | m in names - remaining ensures root + [m] !in fs.entries {
        AmongChild(root, m, {n});
      }
    }
    r := Ok;
  }

  /** The conditions under which `compare_files` cannot raise: distinct
      roots, an existing replica directory, every source name a file, every
      name also listed for the replica a file there, and no unlisted name a
      directory there. */
  ghost predicate FilesReady(t: Tree, srcRoot: Path, repRoot: Path, srcFiles: set<Name>, repFiles: set<Name>)
  {
    srcRoot != repRoot && IsDir(t, repRoot) &&
    forall f :: f in srcFiles ==>
      IsFile(t, srcRoot + [f]) &&
      (f in repFiles ==> IsFile(t, repRoot + [f])) &&
      (f !in repFiles ==> !IsDir(t, repRoot + [f]))
  }

  /** While `srcRoot/f`, `repRoot/f` and `repRoot` are as at the start,
      `compare_files` can still handle `f` without raising. */
  lemma ReadyForFile(t0: Tree, t: Tree, srcRoot: Path, repRoot: Path, srcFiles: set<Name>, repFiles: set<Name>, f: Name)
    requires f in srcFiles
    requires Get(t, srcRoot + [f]) == Get(t0, srcRoot + [f])
    requires Get(t, repRoot + [f]) == Get(t0, repRoot + [f])
    requires Get(t, repRoot) == Get(t0, repRoot)
    ensures FilesReady(t0, srcRoot, repRoot, srcFiles, repFiles) ==>
              srcRoot != repRoot && IsFile(t, srcRoot + [f]) &&
              (f in repFiles ==> IsFile(t, repRoot + [f])) &&
              (f !in repFiles ==> !IsDir(t, repRoot + [f]) && IsDir(t, repRoot))
  {
  }

  /** A pair of files stays mirrored while neither copy changes. */
  lemma MirroredKept(t: Tree, t': Tree, srcRoot: Path, repRoot: Path, f: Name, md5: Hash)
    requires Mirrored(t, srcRoot, repRoot, f, md5)
    requires Get(t', srcRoot + [f]) == Get(t, srcRoot + [f])
    requires Get(t', repRoot + [f]) == Get(t, repRoot + [f])
    ensures Mirrored(t', srcRoot, repRoot, f, md5)
  {
  }

  /** A step for `f` touches only `repRoot/f`, which is neither `srcRoot/g`
      nor `repRoot/g` for any other name `g`. */
  lemma CompareFilesStepFrame(srcRoot: Path, repRoot: Path, f: Name, others: set<Name>)
    ensures f !in others ==> forall q :: Among(q, repRoot, others) ==> q != repRoot + [f]
    ensures forall g :: g != f ==> srcRoot + [g] != repRoot + [f] && repRoot + [g] != repRoot + [f]
    ensures !Among(repRoot, repRoot, others)
  {
    forall g | g != f ensures srcRoot + [g] != repRoot + [f] {
      if |srcRoot| == |repRoot| {
        assert (srcRoot + [g])[|srcRoot|] == g;
      }
    }
    forall g | g != f ensures repRoot + [g] != repRoot + [f] {
      assert (repRoot + [g])[|repRoot|] == g;
    }
  }

  /** Every position where `t` differs from `t0` is `repRoot/f` for one of
      the `names`, was no directory, and now holds a file: the node that
      `srcRoot/f` held in `t0`. */
  ghost predicate CopiesOnly(t0: Tree, t: Tree, srcRoot: Path, repRoot: Path, names: set<Name>)
  {
    forall q :: Get(t, q) != Get(t0, q) ==>
      Among(q, repRoot, names) && !IsDir(t0, q) && IsFile(t, q) &&
      Get(t, q) == Get(t0, srcRoot + [q[|q| - 1]])
  }

  /** Copies of files create and remove no directory. */
  lemma CopiesKeepDirs(t0: Tree, t: Tree, srcRoot: Path, repRoot: Path, names: set<Name>)
    requires CopiesOnly(t0, t, srcRoot, repRoot, names)
    ensures forall q :: IsDir(t, q) <==> IsDir(t0, q)
  {
    forall q ensures IsDir(t, q) <==> IsDir(t0, q) {
      if Get(t, q) != Get(t0, q) {
        assert !IsDir(t0, q) && IsFile(t, q);
      }
    }
  }

  /** Dropping `n` from the names drops exactly `root/n`. */
  lemma AmongRemove(root: Path, names: set<Name>, n: Name)
    ensures forall q :: Among(q, root, names - {n}) <==> Among(q, root, names) && q != root + [n]
  {
    forall q | Among(q, root, names) && q[|q| - 1] == n ensures q == root + [n] {
      assert q == Parent(q) + [q[|q| - 1]];
    }
  }

  /** Before the pass for `f`, the paths it reads are as they were at the
      start. */
  lemma Untouched(t0: Tree, t: Tree, srcRoot: Path, repRoot: Path, f: Name, done: set<Name>)
    requires f !in done && CopiesOnly(t0, t, srcRoot, repRoot, done)
    ensures Get(t, srcRoot + [f]) == Get(t0, srcRoot + [f])
    ensures Get(t, repRoot + [f]) == Get(t0, repRoot + [f])
    ensures Get(t, repRoot) == Get(t0, repRoot)
  {
    var q := srcRoot + [f];
    assert q[|q| - 1] == f;
    CompareFilesStepFrame(srcRoot, repRoot, f, done);
    AmongChild(repRoot, f, done);
  }

  /** The body of the `compare_files` loop (both scripts) for one file `f`: checked with
      `verify_content` when `listed` in `rep_files`, copied otherwise. Only
      `repRoot/f` can change, and it either keeps its node or receives the
      source file's. */
  method CompareFile(fs: FileSystem, srcRoot: Path, repRoot: Path, f: Name, listed: bool, md5: Hash) returns (r: Outcome)
    requires fs.Valid()
    modifies fs
    ensures fs.Valid()
    ensures r.Fail? ==> IsOsError(r.error) && fs.entries == old(fs.entries)
    ensures forall q :: q != repRoot + [f] ==> Get(fs.entries, q) == Get(old(fs.entries), q)
    ensures Get(fs.entries, repRoot + [f]) in {Get(old(fs.entries), repRoot + [f]), Get(old(fs.entries), srcRoot + [f])}
    ensures Get(fs.entries, repRoot + [f]) != Get(old(fs.entries), repRoot + [f]) ==> !IsDir(old(fs.entries), repRoot + [f])
    ensures r.Ok? ==> IsFile(old(fs.entries), srcRoot + [f]) && Mirrored(fs.entries, srcRoot, repRoot, f, md5)
    ensures (srcRoot != repRoot && IsFile(old(fs.entries), srcRoot + [f]) &&
             (listed ==> IsFile(old(fs.entries), repRoot + [f])) &&
             (!listed ==> !IsDir(old(fs.entries), repRoot + [f]) && IsDir(old(fs.entries), repRoot))) ==> r.Ok?
  {
    assert Parent(repRoot + [f]) == repRoot;
    if listed {
      r := VerifyContent(fs, srcRoot, repRoot, f, md5);
    } else {
      r := fs.CopyFile(srcRoot + [f], repRoot + [f]);
    }
  }

  /** One pass of the `compare_files` loop for `f` keeps `CopiesOnly` and the
      files mirrored so far. */
  lemma CompareFilesStep(t0: Tree, t: Tree, t': Tree, srcRoot: Path, repRoot: Path, f: Name, done: set<Name>, md5: Hash)
    requires f !in done
    requires CopiesOnly(t0, t, srcRoot, repRoot, done)
    requires forall g :: g in done ==> Mirrored(t, srcRoot, repRoot, g, md5)
    requires forall q :: q != repRoot + [f] ==> Get(t', q) == Get(t, q)
    requires Get(t', repRoot + [f]) in {Get(t, repRoot + [f]), Get(t, srcRoot + [f])}
    requires IsFile(t, srcRoot + [f]) && Get(t, srcRoot + [f]) == Get(t0, srcRoot + [f])
    requires Get(t, repRoot + [f]) == Get(t0, repRoot + [f])
    requires Get(t', repRoot + [f]) != Get(t, repRoot + [f]) ==> !IsDir(t, repRoot + [f])
    requires Mirrored(t', srcRoot, repRoot, f, md5)
    ensures CopiesOnly(t0, t', srcRoot, repRoot, done + {f})
    ensures forall g :: g in done + {f} ==> Mirrored(t', srcRoot, repRoot, g, md5)
  {
    CompareFilesStepFrame(srcRoot, repRoot, f, done);
    AmongChild(repRoot, f, done + {f});
    forall q | Get(t', q) != Get(t0, q)
      ensures Among(q, repRoot, done + {f}) && !IsDir(t0, q) && IsFile(t', q)
      ensures Get(t', q) == Get(t0, srcRoot + [q[|q| - 1]])
    {
      if q == repRoot + [f] {
        assert q[|q| - 1] == f;
      }
    }
    forall g | g in done + {f} ensures Mirrored(t', srcRoot, repRoot, g, md5) {
      if g != f {
        assert Mirrored(t, srcRoot, repRoot, g, md5);
      }
    }
  }
}
