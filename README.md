# folders-sync, modelled in Dafny

folders-sync is meant to keep a directory `replica` in step with a directory
`source`, both in the working directory: it creates what is missing, copies
files whose MD5 digests differ and removes what the source no longer has.
The repository holds two scripts that do this in different ways, and this
project models both of them as they are written.

- `main.py` syncs one level. `compare()` reads the modification times of
  both roots (the result decides nothing). It then takes the sorted top
  level of each root with `sort_dirs` and passes them to `comparison`.
  `comparison` creates each source directory the replica lacks, and then
  removes those same directories again. It reconciles the top-level files
  with `compare_files`: common files are re-copied when their digests
  differ, source-only files are copied and then removed again. Its last
  line always raises `TypeError`, so the script never completes normally.
  `compare_dir_names`, which pairs directory names by position, is defined
  but never called.
- `test.py` walks the whole source tree top-down with `os.walk`. For each
  directory it builds the replica path by text replacement of every
  `source` in the path with `replica`. When that path exists, it mirrors
  the directory's files with `compare_files`. Otherwise it copies the whole
  directory with `shutil.copytree`. Its removal loop never runs, so nothing
  is ever deleted.

## Structure

- `fs.dfy` (module `Fs`): the filesystem as a map from paths (sequences of
  names, `[]` being the working directory) to nodes. It holds the POSIX and
  `shutil` primitives the scripts call (`mkdir`, `rmdir`, `rename`,
  `remove`, `copyfile`, `copytree`). Each primitive is a pure function
  returning the new tree or the error Python raises. Each also has a method
  of the class `FileSystem`, which updates its `entries` field and is
  proved equal to that function.
- `names.dfy` (module `Names`): Python's ordering of strings and
  `list.sort`.
- `listing.dfy` (module `Listing`): directory listings (`os.listdir`, and
  the split into sub-directories and files that `os.walk` yields).
- `content.dfy` (module `Content`): `calculate_md5`, read in chunks of 4096
  bytes, and `verify_content`. It also holds the per-file step and the
  removal loop that both versions of `compare_files` share. MD5 itself is a function parameter.
- `level_sync.dfy` (module `LevelSync`): `main.py`, made of `sort_dirs`,
  `compare_dir_names`, `comparison`, `compare_files` and `compare`.
- `paths.dfy` (module `PathText`): the path text of `test.py` and its
  `str.replace`.
- `walk_sync.dfy` (module `WalkSync`): `test.py`, made of `compare_files`,
  `compare_subdirs` and the `os.walk` loop of `main`.

Python exceptions are modelled as `Failure`/`Fail` results. A call that
raises aborts the caller, and the tree keeps the effects of the steps made
before it. Python's unordered set loops pick their next element
arbitrarily (`:|`), so every proof holds for every iteration order.
`os.walk` is modelled as a pending set from which the walk takes any
directory whose parent has already been yielded. Top-down order is one such
order.

The comments of `main.py` (main.py:8-12 and main.py:104-110) outline a
level-by-level synchronisation that compares names and digests and creates,
copies or removes whatever differs. The code does less than that, and the
model follows the code. `comparison` removes again the directories it has
just created, uses the non-recursive `os.rmdir`, removes the source-only
files it has just copied, and always ends in `TypeError`.
`compare_dir_names` (main.py:20-34), which would rename directories by
position, is dead code: its only call (main.py:114) is commented out. It is
modelled as written so that its pairing defect can be shown (see
"## Findings"). `test.py` only pushes the source onto the replica and removes
nothing.

## Model

| member | source | states |
|---|---|---|
| Fs.MkdirOp | main.py:29 | `os.mkdir` succeeds exactly when the path is new and its parent is a directory; it then adds that one directory and changes nothing else; a missing parent raises the missing-path error (`MissingError`) |
| Fs.RmdirOp | main.py:25 | `os.rmdir` succeeds exactly when the path is an empty directory other than the working directory; it then removes only that path; a non-empty directory gives `DirectoryNotEmpty`, and a missing path the missing-path error |
| Fs.RemoveOp | main.py:64 | `os.remove` succeeds exactly on a regular file and removes only that path; a missing path raises the missing-path error |
| Fs.CopyFileOp | main.py:61 | `shutil.copyfile` succeeds exactly when the source is a file, the destination is another path that is not a directory, and the destination's parent is a directory; the destination then holds the source's bytes and nothing else changes; a missing source, or a missing parent of the destination, raises the missing-path error |
| Fs.RenameOp | main.py:33 | `os.rename` succeeds exactly when POSIX allows it; the subtree then moves to the new name, and paths outside both names keep their nodes; a missing source raises the missing-path error |
| Fs.CopyTreeOp | test.py:11 | `shutil.copytree` succeeds exactly when the source is a directory, the destination is missing and not below the source, and no file lies above it; the destination then mirrors the source subtree, and the only other change is missing ancestor directories being created |
| Fs.MissingError | main.py:25 | a missing path raises `NotADirectory` exactly when a regular file stands on the way to it, and `FileNotFound` otherwise (also main.py:29, main.py:64, main.py:72, test.py:8, test.py:11) |
| Fs.MissingUnderParent | main.py:25 | for a missing path whose parent exists, the error is `NotADirectory` exactly when that parent is a file |
| Fs.ChildNames | test.py:8 | the names `os.listdir` returns are exactly those of the entries one level below the path |
| Fs.FileSystem.Exists | test.py:7 | `os.path.exists` is true exactly when something is at the path |
| Fs.FileSystem.IsDirectory | test.py:8 | `os.path.isdir` is true exactly on directories |
| Fs.FileSystem.IsRegularFile | test.py:8 | `os.path.isfile` is true exactly on regular files |
| Fs.FileSystem.ListDir | test.py:8 | `os.listdir` succeeds exactly on a directory and lists each child once; otherwise it raises `NotADirectory` for a file or a path through a file, and `FileNotFound` otherwise |
| Fs.FileSystem.Mkdir | main.py:45 | the new state and outcome are those of `MkdirOp` |
| Fs.FileSystem.Rmdir | main.py:48 | the new state and outcome are those of `RmdirOp` |
| Fs.FileSystem.Remove | main.py:64 | the new state and outcome are those of `RemoveOp` |
| Fs.FileSystem.CopyFile | main.py:72 | the new state and outcome are those of `CopyFileOp` |
| Fs.FileSystem.Rename | main.py:33 | the new state and outcome are those of `RenameOp` |
| Fs.FileSystem.CopyTree | test.py:11 | the new state and outcome are those of `CopyTreeOp` |
| Listing.ScanDir | test.py:8 | listing a path succeeds exactly when it is a directory, with the error Python raises otherwise; the two lists hold exactly its sub-directories and its files, each once |
| Listing.DistinctCounts | main.py:16-17 | a list names each entry once exactly when every multiplicity is at most one, which lets the sorted listings be compared as multisets |
| Names.BelowTotal | main.py:16-17 | Python's string order compares any two names |
| Names.BelowAntisymmetric | main.py:16-17 | two names that are each ordered before the other are equal |
| Names.BelowTransitive | main.py:16-17 | the string order is transitive |
| Names.SortNames | main.py:16-17 | `list.sort` leaves a sorted permutation of the names |
| Names.SortedUnique | main.py:16-17 | two sorted lists with the same elements are equal, so the sorted order is canonical |
| LevelSync.SortDirs | main.py:14-18 | `sort_dirs` returns a level exactly when the path is a directory; the level holds its current sub-directories and files, both sorted |
| LevelSync.SortedLevelUnique | main.py:95-97 | two sorted levels of one directory are equal, whatever order `os.walk` listed in |
| LevelSync.ZipLongest | main.py:21 | `zip_longest` is as long as the longer of the two lists |
| LevelSync.ZipLongestPairs | main.py:21 | `zip_longest` is as long as the longer list, and pairs position `i` of each list, padding with `None` |
| LevelSync.CompareDirNames | main.py:20-34 | the new tree and outcome are those of running the per-pair steps in order and stopping at the first error |
| LevelSync.DirStep | main.py:22-34 | one iteration raises only OS errors and changes nothing outside the one or two replica names of its pair |
| LevelSync.RunDirSteps | main.py:21-34 | the loop raises only OS errors, and changes only entries strictly inside `rep_path` |
| LevelSync.ApplyDirStep | main.py:22-34 | one pair: no change when the names agree, `rmdir`, `mkdir` or `rename` otherwise |
| LevelSync.CompareDirNamesSameLists | main.py:20-34 | equal name lists change nothing and raise nothing |
| LevelSync.CompareDirNamesLosesShared | main.py:20-34 | source `[b]` against replica `[a, b]` completes without error and leaves neither `a` nor `b` |
| LevelSync.RemoveDirs | main.py:25 | `rmdir` of a set of names: every change is the removal of one of them; a completed run removed all of them and nothing else; it completes when each is an empty directory |
| LevelSync.SyncDirNames | main.py:20-34 | matching by name: given a faithful replica listing, a completed run leaves exactly the source names as sub-directories; only those names change; the run cannot fail when replica-only directories are empty and source-only names are free |
| Content.CalculateMd5 | main.py:76-81 | the digest is `md5` of the file's whole content, read as chunks of at most 4096 bytes that concatenate to the file with every chunk but the last full; a missing path or a directory gives the error `open` raises |
| Content.FileDigest | main.py:76-81 | `calculate_md5` returns a digest exactly for a regular file, namely `md5` of its bytes; `open` raises `IsADirectory` for a directory and the missing-path error otherwise |
| Content.Reader.Read | main.py:79 | `f.read(n)` returns the next `n` bytes, or fewer at the end, and advances the position |
| Content.Hasher.Update | main.py:80 | the hasher has been fed the chunk after what it had before |
| Content.Hasher.HexDigest | main.py:81 | the digest is `md5` of everything fed |
| Content.VerifyContentOp | main.py:67-74 | succeeds exactly when both copies are files; it then leaves them digest-equal, touches only the replica copy (which keeps its own node or takes the source's), and writes only when the digests differed |
| Content.VerifyContent | test.py:27-33 | the new state and outcome are those of `VerifyContentOp` |
| Content.CompareFile | main.py:57-62 | one pass of the copy loop (also test.py:15-19): only `rep_root/file` changes, to the source's node, and never from a directory; on error nothing changes; on success the two copies are digest-equal; it cannot fail when the names are files as listed |
| Content.RemoveFiles | main.py:63-65 | removes only the named children, never a directory, and removes them all unless an OS error is raised; it cannot fail when each is a file; an empty set changes nothing |
| LevelSync.CompareFiles | main.py:56-65 | only source file names change in the replica and no directory changes; a completed run leaves common files digest-equal and source-only files absent; the run completes when all names are files as listed |
| LevelSync.Comparison | main.py:37-54 | never returns normally; a `None` level raises `TypeError` before any change; only names of the source level change in the replica; once the last line is reached, the net effect is `compare_files` alone; no existing directory is removed; compatible current levels end in `TypeError` |
| LevelSync.CreateDirs | main.py:43-46 | the create loop: every change is a new directory for a source name the replica lacks; a completed loop created each such name, which was missing before, and changed nothing else; it completes when the replica root is a directory and those names are free |
| LevelSync.RemoveCreated | main.py:47-49 | the remove loop, after a completed create loop, removes exactly what was created and restores the tree as it was |
| LevelSync.CreatedOnlyAdds | main.py:43-46 | changes that only ever leave directories behind remove no directory, so a failed create loop removes none |
| LevelSync.CreatedIsEmpty | main.py:47-49 | a directory just created by the first loop is empty, so the second loop's `rmdir` succeeds |
| LevelSync.Compare | main.py:83-98 | never returns normally; a missing root gives `FileNotFound` and a root that is a file gives `TypeError`, both with no change; only entries directly inside `replica` change; no directory is removed; on compatible roots it ends in `TypeError` with every common top-level file digest-equal and everything else unchanged |
| PathText.ReplaceAcross | test.py:6 | no occurrence of the pattern straddles a character outside it |
| PathText.ReplaceJoin | test.py:6 | `str.replace` on the joined path text equals joining the components replaced one by one (`ReplacePath`), so the model may map paths component by component |
| PathText.ReplaceAll | test.py:6 | `str.replace` with a substitute at least as long as the pattern never shortens the text, and replacing a pattern by itself changes nothing |
| PathText.ReplaceLength | test.py:6 | with `replica` longer than `source`, the replacement lengthens a text exactly when the pattern occurs in it and otherwise leaves it as it is |
| PathText.Join | test.py:6 | the path text `os.walk` yields starts with its first component |
| PathText.ReplaceUnchanged | test.py:6 | a name is left alone exactly when `source` does not occur in it |
| PathText.ReplaceSwapsRoot | test.py:6 | when `source` occurs only as the leading component, the replacement swaps that component for `replica` |
| PathText.ReplaceStaysInReplica | test.py:6 | every path below `source` is mapped below `replica` |
| PathText.ReplaceInsideName | test.py:6 | `source/opensource` is mapped to `replica/openreplica` |
| PathText.ReplaceNotInjective | test.py:6 | two different source directories can map to the same replica directory |
| WalkSync.NameSet.Add | test.py:20 | `rep_files.add(file)` adds the name to the set |
| WalkSync.CompareFiles | test.py:14-25 | only replica children named by source files change, each was no directory and now holds the source's file; a completed run leaves every source file digest-equal in the replica with every name added to `rep_files`, and deletes nothing; the run completes when all names are files as listed |
| WalkSync.CopyFiles | test.py:15-21 | the copy loop: the same guarantees as `CompareFiles`, kept as loop invariants |
| WalkSync.CompareSubdirs | test.py:5-11 | when the replica path exists, only its children named by the listed files change, each to a copy of the source file; when it is missing, a completed `copytree` makes every entry below `path` reappear below the replica path, the only other change being missing ancestor directories; nothing is deleted; on success the replica path is a directory holding digest-equal copies of the listed files; it cannot fail on compatible trees |
| WalkSync.CopyTreeMirrors | test.py:11 | after a successful `copytree`, every entry below `path` is at the same place below the replica path, every listed file is digest-equal in the copy, and the only other change is missing ancestor directories |
| WalkSync.SubdirFilesReady | test.py:8-9 | on compatible trees the file reconciliation of one directory cannot fail |
| WalkSync.WalkSource | test.py:42-46 | nothing outside `replica` changes and nothing is deleted; when `source` occurs only as the leading component, a completed walk leaves every source directory mirrored, and the walk completes unless a directory and a file share a relative path |
| WalkSync.VisitDir | test.py:45-46 | one iteration of the walk: nothing outside `replica` changes and nothing is removed; when `source` occurs only as the leading component, the yielded directory joins the mirrored ones; on compatible trees the call cannot fail and keeps the kinds agreeing |
| WalkSync.FrontierStart | test.py:44 | the walk starts from `source` when it is a directory |
| WalkSync.FrontierStep | test.py:45 | yielding a directory and queueing its sub-directories keeps the walk's bookkeeping |
| WalkSync.AllVisited | test.py:45-46 | when nothing is pending, every source directory has been yielded |
| WalkSync.MirroredAfterStep | test.py:46 | handling one directory mirrors it and keeps the earlier directories mirrored |
| WalkSync.MirroredDirStep | test.py:46 | handling one directory does not undo the mirror of a directory that is not above it |
| WalkSync.KindsAgreeStep | test.py:46 | handling one directory creates no directory where the source has a file, and no file where it has a directory |
| WalkSync.StepReady | test.py:46 | on compatible trees, each directory's `compare_subdirs` call cannot fail |

## Left out

- Printing to the console (every `print`) is not modelled.
- The modification-time comparison (main.py:90-93) decides nothing, since its branch is `pass`. Only the `FileNotFound` that `os.path.getmtime` raises for a missing root is modelled.
- The `zip_longest` loop at main.py:112-115 is not modelled: its body is `pass`, and `comparison` raises before it is reached.
- The MD5 algorithm is not modelled: the digest is a function parameter over byte sequences, so digest equality is all the model knows.
- Permissions, symbolic links, special files, timestamps and concurrent changes by other processes are outside the model. The only errors are those raised for missing paths, wrong kinds of node and non-empty directories.
- `os.walk`: its lazy listing, its suppression of listing errors and its exact visiting order are not modelled. The walk lists each directory in the tree as it was before the run, which is what `source` is, since the run never writes there.
- Fs.CopyTreeOp: `shutil.copytree` into its own subtree is modelled as an `InvalidArgument` failure. The walk never reaches this case, because the replica path always lies below `replica`.
- Names.SortNames: the in-place `list.sort` of main.py:16-17 is modelled on sequence values, so aliasing of the lists `os.walk` returns is not captured.
- The module-level calls `main()` (main.py:121 and test.py:48) and `main()` of main.py:118-119, which only calls `compare()`, are not modelled. `LevelSync.Compare` and `WalkSync.WalkSource` are the entry points.
- The unused variable `rep_root` (test.py:43) and the unused `dirs` argument of `compare_subdirs` (test.py:5) have no effect.
- WalkSync.WalkSource: the full-mirror guarantee is stated only when `source` occurs in no directory name below the top. Otherwise the replacement can send two source directories to one replica directory (`PathText.ReplaceNotInjective`), and no per-directory mirror is promised.
- WalkSync.WalkSource: files the replica has and the source lacks stay in place, because `test.py` never deletes.
- LevelSync.Comparison: the effects are stated only up to the `TypeError` the function always raises. The recursion it attempts never runs.
- LevelSync.Compare: the run always ends in an exception. A missing `source` or `replica` raises `FileNotFound` (main.py:90-91). A root that is a file raises `TypeError`, because `sort_dirs` returns `None` for it (main.py:14-18) and `comparison` cannot subscript that (main.py:38). In both cases nothing changes. Where both roots are directories, it is stated to end in `TypeError` only when no top-level name is a directory on one side and a file on the other. On the remaining trees only its frame, its failure and the absence of removed directories are stated.

## Findings

| source | as written | input that shows it | evidently intended | confidence | as-written member | corrected member |
|---|---|---|---|---|---|---|
| main.py:20-34 | pairs source and replica directory names by position (`zip_longest`) and renames the replica name to the source name at each position that differs | source names `[b]`, replica names `[a, b]`, both replica directories empty: `a` is renamed onto `b`, replacing it, and then `b` is removed as unmatched, so the replica keeps neither name | the replica's sub-directories become exactly the source's names, so `b` is kept | high; not executed | LevelSync.CompareDirNamesLosesShared | LevelSync.SyncDirNames |
