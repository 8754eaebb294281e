/** `TemporaryFilesCleaner`: walks the temporary directories (and `Prefetch`, when it exists)
    and moves every file nobody holds open to the recycle bin, then does the same for the
    Explorer thumbnail caches. */
module TemporaryFiles {
  import opened Common
  import opened FileSystem
  import opened FileOperations
  import opened Reclaim
  import opened Descent
  import FileUtils

  /** `thumbcache_*.db`. */
  const ThumbCachePattern := StartsAndEndsWith("thumbcache_", ".db")

  function PrefetchPath(env: Env): Path {
    Combine(env.systemDirectory, "Prefetch")
  }

  /** `%LOCALAPPDATA%\Microsoft\Windows\Explorer`, an unset variable read as "". */
  function ExplorerCachePath(env: Env): Path {
    Combine(Combine(Combine(LocalAppDataOrEmpty(env), "Microsoft"), "Windows"), "Explorer")
  }

  /** The roots of a run: the three temporary directories, then `Prefetch` if it exists. */
  function Roots(fs: Fs, env: Env): seq<Path> {
    TempDirectories(env) + (if DirExists(fs, PrefetchPath(env)) then [PrefetchPath(env)] else [])
  }

  /** The estimate of one root: its files, enumerated to depth 10, or nothing when it is
      missing. */
  function RootTotal(fs: Fs, root: Path): nat {
    if DirExists(fs, root) then FileUtils.DefaultEstimate(fs, root, AnyName) else 0
  }

  /** The estimate of the roots: the sum of each root's estimate. */
  function RootsTotal(fs: Fs, roots: seq<Path>): nat {
    if roots == [] then 0
    else RootsTotal(fs, roots[..|roots| - 1]) + RootTotal(fs, roots[|roots| - 1])
  }

  /** The thumbnail caches' summed sizes (none when the directory is missing). */
  function ExplorerCacheTotal(fs: Fs, env: Env): nat {
    var path := ExplorerCachePath(env);
    if DirExists(fs, path) then FileUtils.TotalSize(fs, MatchingFiles(fs, path, ThumbCachePattern)) else 0
  }

  /** Listing the thumbnail caches fails, which nothing catches. */
  predicate ExplorerListingFails(fs: Fs, env: Env) {
    DirExists(fs, ExplorerCachePath(env)) && Node(fs, ExplorerCachePath(env)).filesFail
  }

  /** The canonical directories whose files a run handles: those the walks of the roots
      reach, each root walked with a fresh visited set. */
  function SweptDirs(fs: Fs, env: Env): set<Path> {
    Swept(fs.tree, fs.canon, Roots(fs, env))
  }

  function EstimateTotal(fs: Fs, env: Env): nat {
    RootsTotal(fs, Roots(fs, env)) + ExplorerCacheTotal(fs, env)
  }

  /** `EstimateExplorerCacheSizeAsync`: nothing when the cache directory is missing; a
      failing listing is not caught; otherwise the thumbnail caches' summed sizes. */
  method EstimateExplorerCacheSize(fs: Fs, env: Env, token: CancellationToken, polls: nat)
    returns (r: Outcome<nat>, pollsOut: nat)
    ensures polls <= pollsOut
    ensures r.Threw? ==> (r.error == OperationCanceled && CancellationRequested(token, pollsOut)) ||
                         (r.error == UnauthorizedAccess(ExplorerCachePath(env)) && ExplorerListingFails(fs, env))
    ensures ExplorerListingFails(fs, env) ==> r.Threw?
    ensures r.Done? ==> r.value == ExplorerCacheTotal(fs, env)
    ensures !CancellationRequested(token, pollsOut) && !ExplorerListingFails(fs, env) ==> r.Done?
  {
    pollsOut := polls;
    var path := ExplorerCachePath(env);
    if !DirExists(fs, path) {
      return Done(0), pollsOut;
    }
    if Node(fs, path).filesFail {
      return Threw(UnauthorizedAccess(path)), pollsOut;
    }
    // The loop over the caches (lines 267-280) is the consumer loop of the size estimate.
    r, pollsOut := FileUtils.SumLengths(fs, MatchingFiles(fs, path, ThumbCachePattern), token, polls);
  }

  class TemporaryFilesCleaner {
    const fileOps: FileOperationsService
    const env: Env
    var spaceFreed: nat
    var filesProcessed: nat

    ghost predicate Valid()
      reads this, fileOps
    {
      fileOps.Valid()
    }

    constructor (fileOps: FileOperationsService, env: Env)
      ensures this.fileOps == fileOps && this.env == env
      ensures spaceFreed == 0 && filesProcessed == 0
    {
      this.fileOps := fileOps;
      this.env := env;
      spaceFreed := 0;
      filesProcessed := 0;
    }

    /** The body of the file loop of `ProcessDirectoryAsync` (lines 181-215): a file not in
        use has its size read and is moved, and a move counts the file and its size. An
        error from the in-use test is caught and logged. */
    method ReclaimIfFree(f: FileRef) returns (ghost removed: seq<Removal>)
      requires Valid()
      modifies this, fileOps
      ensures Valid()
      ensures removed == if OpenExclusive(old(fileOps.fs), f) == Opened then [Removal(f, Lookup(old(fileOps.fs), f).value)] else []
      ensures removed == [] ==> fileOps.fs == old(fileOps.fs)
      ensures removed != [] ==> fileOps.fs == RemoveFile(old(fileOps.fs), f)
      ensures ValidRemovals(old(fileOps.fs), removed) && fileOps.fs == RemoveAll(old(fileOps.fs), removed)
      ensures fileOps.recycleBin == old(fileOps.recycleBin) + removed
      ensures filesProcessed == old(filesProcessed) + |removed| && spaceFreed == old(spaceFreed) + SumSizes(removed)
    {
      removed := [];
      var inUse := fileOps.IsFileInUse(f);
      if inUse == Done(false) {
        var moved, size := ReadLengthThenMove(fileOps, f);
        filesProcessed := filesProcessed + 1;
        spaceFreed := spaceFreed + size.value;
        ghost var x := Removal(f, Lookup(old(fileOps.fs), f).value);
        RemovalsSnoc(old(fileOps.fs), [], x);
        AppendEmpty([x]);
        removed := [x];
      }
    }

    /** The file loop of `ProcessDirectoryAsync` (lines 177-215) over the listing of `dir`.
        Each file costs a cancellation check that escapes; a file not in use has its size
        read and is moved, and a move counts the file and its size. An error from the in-use
        test is caught and logged. Without cancellation every file nobody holds open is
        moved. */
    method ProcessFiles(dir: Path, files: seq<FileEntry>, token: CancellationToken, polls: nat)
      returns (r: Outcome<()>, pollsOut: nat, ghost removed: seq<Removal>)
      requires Valid() && files == FilesOf(fileOps.fs, dir)
      modifies this, fileOps
      ensures Valid()
      ensures ValidRemovals(old(fileOps.fs), removed) && fileOps.fs == RemoveAll(old(fileOps.fs), removed)
      ensures fileOps.recycleBin == old(fileOps.recycleBin) + removed
      ensures filesProcessed == old(filesProcessed) + |removed| && spaceFreed == old(spaceFreed) + SumSizes(removed)
      ensures forall x :: x in removed ==> x.file == FileRef(dir, x.entry.name) && x.entry in files
      ensures r.Done? ==> forall e :: e in files && !e.locked && !e.denied ==> Removal(FileRef(dir, e.name), e) in removed
      ensures Taken(fileOps.fs.canon, removed) <= Reclaimable(old(fileOps.fs), {fileOps.fs.canon(dir)}, AnyAge)
      ensures r.Done? ==> Reclaimable(old(fileOps.fs), {fileOps.fs.canon(dir)}, AnyAge) <= Taken(fileOps.fs.canon, removed)
      ensures r.Threw? ==> r.error == OperationCanceled && CancellationRequested(token, pollsOut)
      ensures polls <= pollsOut
    {
      pollsOut, removed := polls, [];
      ListedFilesFound(fileOps.fs, dir);
      var i := 0;
      while i < |files|
        invariant 0 <= i <= |files|
        invariant Valid() && polls <= pollsOut
        invariant ValidRemovals(old(fileOps.fs), removed) && fileOps.fs == RemoveAll(old(fileOps.fs), removed)
        invariant fileOps.recycleBin == old(fileOps.recycleBin) + removed
        invariant filesProcessed == old(filesProcessed) + |removed| && spaceFreed == old(spaceFreed) + SumSizes(removed)
        invariant forall k :: i <= k < |files| ==> Lookup(fileOps.fs, FileRef(dir, files[k].name)) == Some(files[k])
        invariant forall x :: x in removed ==> x.file == FileRef(dir, x.entry.name) && x.entry in files
        invariant forall k :: 0 <= k < i && !files[k].locked && !files[k].denied ==>
                    Removal(FileRef(dir, files[k].name), files[k]) in removed
      {
        if CancellationRequested(token, pollsOut) {
          ListingSweep(old(fileOps.fs), dir, files, removed, AnyAge);
          return Threw(OperationCanceled), pollsOut, removed;
        }
        pollsOut := pollsOut + 1;
        var f := FileRef(dir, files[i].name);
        ghost var before := fileOps.fs;
        ghost var more := ReclaimIfFree(f);
        assert more == [] || more == [Removal(f, files[i])];
        RemovalsAppend(old(fileOps.fs), removed, more);
        ConcatAssoc(old(fileOps.recycleBin), removed, more);
        removed := removed + more;
        if more != [] {
          forall k | i < k < |files| ensures Lookup(fileOps.fs, FileRef(dir, files[k].name)) == Some(files[k]) {
            LookupAfterRemove(before, f, FileRef(dir, files[k].name));
          }
        }
        i := i + 1;
      }
      r := Done(());
      ListingSweep(old(fileOps.fs), dir, files, removed, AnyAge);
    }

    /** `ProcessDirectoryAsync`, with the visited set passed in and handed back. A directory
        already visited is skipped; otherwise it is added to the set, its files are handled
        (unless it is missing or its listing fails), then its subdirectories (unless listing
        them fails), and it is removed from the set again on the normal path only. The
        cancellation checks inside escape. */
    method ProcessDirectory(dir: Path, token: CancellationToken, polls: nat, visited: set<Path>, ghost keys: set<Path>)
      returns (r: Outcome<()>, pollsOut: nat, visitedOut: set<Path>, ghost removed: seq<Removal>)
      requires Valid() && keys == fileOps.fs.tree.Keys
      modifies this, fileOps
      ensures Valid()
      ensures ValidRemovals(old(fileOps.fs), removed) && fileOps.fs == RemoveAll(old(fileOps.fs), removed)
      ensures fileOps.recycleBin == old(fileOps.recycleBin) + removed
      ensures filesProcessed == old(filesProcessed) + |removed| && spaceFreed == old(spaceFreed) + SumSizes(removed)
      ensures r.Done? ==> visitedOut == After(fileOps.fs.tree, fileOps.fs.canon, dir, visited)
      ensures r.Done? && fileOps.fs.canon(dir) !in visited && DirExists(fileOps.fs, dir) && !Node(fileOps.fs, dir).filesFail ==>
                forall e :: e in FilesOf(old(fileOps.fs), dir) && !e.locked && !e.denied ==> Removal(FileRef(dir, e.name), e) in removed
      ensures Taken(fileOps.fs.canon, removed) <= Reclaimable(old(fileOps.fs), Reached(fileOps.fs.tree, fileOps.fs.canon, dir, visited), AnyAge)
      ensures r.Done? ==> Reclaimable(old(fileOps.fs), Reached(fileOps.fs.tree, fileOps.fs.canon, dir, visited), AnyAge) <= Taken(fileOps.fs.canon, removed)
      ensures r.Threw? ==> r.error == OperationCanceled && CancellationRequested(token, pollsOut)
      ensures polls <= pollsOut
      decreases |keys - visited|, 0
    {
      pollsOut, visitedOut, removed := polls, visited, [];
      ghost var tree, canon := fileOps.fs.tree, fileOps.fs.canon;
      var c := fileOps.fs.canon(dir);
      if c in visited {
        return Done(()), pollsOut, visitedOut, removed;
      }
      AfterUnfold(tree, canon, dir, visited);
      visitedOut := visited + {c};
      if !DirExists(fileOps.fs, dir) || Node(fileOps.fs, dir).filesFail {
        return Done(()), pollsOut, visitedOut, removed;
      }
      ghost var fs0 := fileOps.fs;
      ghost var reached := Reached(tree, canon, dir, visited);
      r, pollsOut, removed := ProcessFiles(dir, FilesOf(fileOps.fs, dir), token, pollsOut);
      assert fileOps.fs.tree == tree && fileOps.fs.canon == canon;
      ReclaimableMono(fs0, {c}, reached, AnyAge);
      if r.Threw? || Node(fileOps.fs, dir).subdirsFail {
        return;
      }
      VisitShrinks(keys, visited, c);
      ghost var more;
      ghost var below := ReachedSubdirs(tree, canon, tree[c].subdirs, visited + {c});
      r, pollsOut, visitedOut, more := ProcessSubdirs(Node(fileOps.fs, dir).subdirs, token, pollsOut, visitedOut, keys);
      assert fileOps.fs.tree == tree && fileOps.fs.canon == canon;
      RemovalsAppend(fs0, removed, more);
      ConcatAssoc(old(fileOps.recycleBin), removed, more);
      ComposeSweeps(fs0, removed, more, {c}, below, AnyAge);
      assert reached == {c} + below;
      removed := removed + more;
      if r.Threw? {
        return;
      }
      visitedOut := visitedOut - {c};
    }

    /** One turn of the subdirectory loop of `ProcessDirectoryAsync` (lines 236-247): a
        cancellation check that escapes, then the walk of `sub` unless it is in the visited
        set. */
    method VisitSubdir(sub: Path, token: CancellationToken, polls: nat, visited: set<Path>, ghost keys: set<Path>)
      returns (r: Outcome<()>, pollsOut: nat, visitedOut: set<Path>, ghost removed: seq<Removal>)
      requires Valid() && keys == fileOps.fs.tree.Keys
      modifies this, fileOps
      ensures Valid()
      ensures ValidRemovals(old(fileOps.fs), removed) && fileOps.fs == RemoveAll(old(fileOps.fs), removed)
      ensures fileOps.recycleBin == old(fileOps.recycleBin) + removed
      ensures filesProcessed == old(filesProcessed) + |removed| && spaceFreed == old(spaceFreed) + SumSizes(removed)
      ensures r.Done? ==> visitedOut == After(fileOps.fs.tree, fileOps.fs.canon, sub, visited)
      ensures Taken(fileOps.fs.canon, removed) <= Reclaimable(old(fileOps.fs), Reached(fileOps.fs.tree, fileOps.fs.canon, sub, visited), AnyAge)
      ensures r.Done? ==> Reclaimable(old(fileOps.fs), Reached(fileOps.fs.tree, fileOps.fs.canon, sub, visited), AnyAge) <= Taken(fileOps.fs.canon, removed)
      ensures r.Threw? ==> r.error == OperationCanceled && CancellationRequested(token, pollsOut)
      ensures polls <= pollsOut
      decreases |keys - visited|, 1
    {
      pollsOut, visitedOut, removed := polls, visited, [];
      if CancellationRequested(token, pollsOut) {
        return Threw(OperationCanceled), pollsOut, visitedOut, removed;
      }
      pollsOut := pollsOut + 1;
      if fileOps.fs.canon(sub) in visited {
        return Done(()), pollsOut, visitedOut, removed;
      }
      r, pollsOut, visitedOut, removed := ProcessDirectory(sub, token, pollsOut, visited, keys);
    }

    /** The subdirectory loop of `ProcessDirectoryAsync` (lines 234-248). */
    method ProcessSubdirs(subs: seq<Path>, token: CancellationToken, polls: nat, visited: set<Path>, ghost keys: set<Path>)
      returns (r: Outcome<()>, pollsOut: nat, visitedOut: set<Path>, ghost removed: seq<Removal>)
      requires Valid() && keys == fileOps.fs.tree.Keys
      modifies this, fileOps
      ensures Valid()
      ensures ValidRemovals(old(fileOps.fs), removed) && fileOps.fs == RemoveAll(old(fileOps.fs), removed)
      ensures fileOps.recycleBin == old(fileOps.recycleBin) + removed
      ensures filesProcessed == old(filesProcessed) + |removed| && spaceFreed == old(spaceFreed) + SumSizes(removed)
      ensures r.Done? ==> visitedOut == AfterSubdirs(fileOps.fs.tree, fileOps.fs.canon, subs, visited)
      ensures Taken(fileOps.fs.canon, removed) <= Reclaimable(old(fileOps.fs), ReachedSubdirs(fileOps.fs.tree, fileOps.fs.canon, subs, visited), AnyAge)
      ensures r.Done? ==> Reclaimable(old(fileOps.fs), ReachedSubdirs(fileOps.fs.tree, fileOps.fs.canon, subs, visited), AnyAge) <= Taken(fileOps.fs.canon, removed)
      ensures r.Threw? ==> r.error == OperationCanceled && CancellationRequested(token, pollsOut)
      ensures polls <= pollsOut
      decreases |keys - visited|, 2
    {
      pollsOut, visitedOut, removed := polls, visited, [];
      ghost var fs0 := fileOps.fs;
      var i := 0;
      while i < |subs|
        invariant 0 <= i <= |subs|
        invariant Valid() && keys == fs0.tree.Keys && polls <= pollsOut
        invariant fileOps.fs.tree == fs0.tree && fileOps.fs.canon == fs0.canon
        invariant ValidRemovals(fs0, removed) && fileOps.fs == RemoveAll(fs0, removed)
        invariant fileOps.recycleBin == old(fileOps.recycleBin) + removed
        invariant filesProcessed == old(filesProcessed) + |removed| && spaceFreed == old(spaceFreed) + SumSizes(removed)
        invariant visitedOut == AfterSubdirs(fs0.tree, fs0.canon, subs[..i], visited)
        invariant Taken(fs0.canon, removed) <= Reclaimable(fs0, ReachedSubdirs(fs0.tree, fs0.canon, subs[..i], visited), AnyAge)
        invariant Reclaimable(fs0, ReachedSubdirs(fs0.tree, fs0.canon, subs[..i], visited), AnyAge) <= Taken(fs0.canon, removed)
      {
        AfterSubdirsSnoc(fs0.tree, fs0.canon, subs, i, visited);
        FewerUnvisited(keys, visited, visitedOut);
        var res;
        ghost var more;
        res, pollsOut, visitedOut, more := VisitSubdir(subs[i], token, pollsOut, visitedOut, keys);
        SweepSubdirsStep(fs0, removed, more, subs, i, visited, AnyAge);
        RemovalsAppend(fs0, removed, more);
        ConcatAssoc(old(fileOps.recycleBin), removed, more);
        removed := removed + more;
        if res.Threw? {
          return res, pollsOut, visitedOut, removed;
        }
        i := i + 1;
      }
      PrefixAll(subs, i);
      r := Done(());
    }

    /** `ClearExplorerCacheAsync`: the thumbnail caches are listed (a failing listing is not
        caught), and each one costs a cancellation check that escapes and a move. The
        `FileInfo` is created before the move and its length read after it, so every
        successful move counts the file, then throws from the length read; that error is
        caught and the loop goes on. So a run that ends normally moves every listed cache
        that is free to open, and the freed space never grows here. */
    method ClearExplorerCache(token: CancellationToken, polls: nat)
      returns (r: Outcome<()>, pollsOut: nat, ghost removed: seq<Removal>)
      requires Valid()
      modifies this, fileOps
      ensures Valid()
      ensures ValidRemovals(old(fileOps.fs), removed) && fileOps.fs == RemoveAll(old(fileOps.fs), removed)
      ensures fileOps.recycleBin == old(fileOps.recycleBin) + removed
      ensures filesProcessed == old(filesProcessed) + |removed| && spaceFreed == old(spaceFreed)
      ensures forall x :: x in removed ==> x.file.dir == ExplorerCachePath(env) && Matches(ThumbCachePattern, x.file.name)
      ensures r == Done(()) ==>
                forall f :: f in MatchingFiles(old(fileOps.fs), ExplorerCachePath(env), ThumbCachePattern) && OpenExclusive(old(fileOps.fs), f) == Opened
                  ==> Removal(f, Lookup(old(fileOps.fs), f).value) in removed
      ensures ExplorerListingFails(old(fileOps.fs), env) <==> r == Threw(UnauthorizedAccess(ExplorerCachePath(env)))
      ensures r.Threw? && r.error != UnauthorizedAccess(ExplorerCachePath(env)) ==>
                r.error == OperationCanceled && CancellationRequested(token, pollsOut)
      ensures polls <= pollsOut
    {
      pollsOut, removed := polls, [];
      var path := ExplorerCachePath(env);
      if !DirExists(fileOps.fs, path) {
        return Done(()), pollsOut, removed;
      }
      if Node(fileOps.fs, path).filesFail {
        return Threw(UnauthorizedAccess(path)), pollsOut, removed;
      }
      var files := MatchingFiles(fileOps.fs, path, ThumbCachePattern);
      ghost var fs0 := fileOps.fs;
      ListedFilesFound(fs0, path);
      ListingDistinct(path, FilesOf(fs0, path), ThumbCachePattern);
      var i := 0;
      while i < |files|
        invariant 0 <= i <= |files|
        invariant Valid() && polls <= pollsOut
        invariant ValidRemovals(fs0, removed) && fileOps.fs == RemoveAll(fs0, removed)
        invariant fileOps.recycleBin == old(fileOps.recycleBin) + removed
        invariant filesProcessed == old(filesProcessed) + |removed| && spaceFreed == old(spaceFreed)
        invariant forall x :: x in removed ==> x.file.dir == path && Matches(ThumbCachePattern, x.file.name)
        invariant forall k :: i <= k < |files| ==> Lookup(fileOps.fs, files[k]) == Lookup(fs0, files[k])
        invariant forall k :: 0 <= k < i && OpenExclusive(fs0, files[k]) == Opened ==>
                    Removal(files[k], Lookup(fs0, files[k]).value) in removed
      {
        if CancellationRequested(token, pollsOut) {
          return Threw(OperationCanceled), pollsOut, removed;
        }
        pollsOut := pollsOut + 1;
        ghost var before := fileOps.fs;
        ghost var more := MoveCache(files[i]);
        RemovalsAppend(fs0, removed, more);
        ConcatAssoc(old(fileOps.recycleBin), removed, more);
        assert files[i] in files;
        FreeFilesCovered(fs0, before, files, i, removed, more);
        removed := removed + more;
        if more != [] {
          forall k | i < k < |files| ensures Lookup(fileOps.fs, files[k]) == Lookup(fs0, files[k]) {
            LookupAfterRemove(before, files[i], files[k]);
          }
        }
        i := i + 1;
      }
      r := Done(());
    }

    /** One turn of the cache loop after its cancellation check (lines 305-323): the move,
        then the length read, whose `FileNotFoundException` is caught. A moved file is
        counted without its size. */
    method MoveCache(f: FileRef) returns (ghost removed: seq<Removal>)
      requires Valid()
      modifies this, fileOps
      ensures Valid()
      ensures removed == if OpenExclusive(old(fileOps.fs), f) == Opened then [Removal(f, Lookup(old(fileOps.fs), f).value)] else []
      ensures removed != [] ==> fileOps.fs == RemoveFile(old(fileOps.fs), f)
      ensures ValidRemovals(old(fileOps.fs), removed) && fileOps.fs == RemoveAll(old(fileOps.fs), removed)
      ensures fileOps.recycleBin == old(fileOps.recycleBin) + removed
      ensures filesProcessed == old(filesProcessed) + |removed| && spaceFreed == old(spaceFreed)
    {
      removed := [];
      var moved, size := MoveThenReadLength(fileOps, f);
      if moved {
        filesProcessed := filesProcessed + 1;
        ghost var x := Removal(f, Lookup(old(fileOps.fs), f).value);
        RemovalsSnoc(old(fileOps.fs), [], x);
        AppendEmpty([x]);
        removed := [x];
        // The length read throws; the error is caught (lines 320-323) and the loop goes on.
      }
    }

    /** `CleanAsync`: counters reset, the walks of the roots below, then the Explorer
        caches, whose errors escape. */
    method Clean(token: CancellationToken, polls: nat)
      returns (r: Outcome<bool>, pollsOut: nat, ghost walked: seq<Removal>, ghost thumbnails: seq<Removal>)
      requires Valid()
      modifies this, fileOps
      ensures Valid()
      ensures ValidRemovals(old(fileOps.fs), walked + thumbnails) && fileOps.fs == RemoveAll(old(fileOps.fs), walked + thumbnails)
      ensures fileOps.recycleBin == old(fileOps.recycleBin) + walked + thumbnails
      ensures filesProcessed == |walked| + |thumbnails| && spaceFreed == SumSizes(walked)
      ensures forall x :: x in thumbnails ==> x.file.dir == ExplorerCachePath(env) && Matches(ThumbCachePattern, x.file.name)
      ensures r == Done(false) ==> CancellationRequested(token, pollsOut)
      ensures r.Threw? ==> (r.error == OperationCanceled && CancellationRequested(token, pollsOut)) ||
                           (r.error == UnauthorizedAccess(ExplorerCachePath(env)) && ExplorerListingFails(old(fileOps.fs), env))
      ensures !CancellationRequested(token, pollsOut) && !ExplorerListingFails(old(fileOps.fs), env) ==> r == Done(true)
      ensures Taken(old(fileOps.fs).canon, walked) <= Reclaimable(old(fileOps.fs), SweptDirs(old(fileOps.fs), env), AnyAge)
      ensures r == Done(true) ==> Reclaimable(old(fileOps.fs), SweptDirs(old(fileOps.fs), env), AnyAge) <= Taken(old(fileOps.fs).canon, walked)
      ensures polls <= pollsOut
    {
      spaceFreed := 0;
      filesProcessed := 0;
      thumbnails := [];
      r, pollsOut, walked := CleanRoots(token, polls);
      if r != Done(true) {
        AppendEmpty(walked);
        return;
      }
      ghost var fs1 := fileOps.fs;
      var stage;
      stage, pollsOut, thumbnails := ClearExplorerCache(token, pollsOut);
      RemovalsAppend(old(fileOps.fs), walked, thumbnails);
      ConcatAssoc(old(fileOps.recycleBin), walked, thumbnails);
      assert ExplorerListingFails(fs1, env) == ExplorerListingFails(old(fileOps.fs), env);
      if stage.Threw? {
        return Threw(stage.error), pollsOut, walked, thumbnails;
      }
    }

    /** The loop of `CleanAsync` (lines 52-76): for each root a cancellation check that
        escapes, then a walk of the root with a fresh visited set. Only cancellation can
        leave a walk, and it ends the loop with `false`. */
    method CleanRoots(token: CancellationToken, polls: nat)
      returns (r: Outcome<bool>, pollsOut: nat, ghost walked: seq<Removal>)
      requires Valid()
      modifies this, fileOps
      ensures Valid()
      ensures ValidRemovals(old(fileOps.fs), walked) && fileOps.fs == RemoveAll(old(fileOps.fs), walked)
      ensures fileOps.recycleBin == old(fileOps.recycleBin) + walked
      ensures filesProcessed == old(filesProcessed) + |walked| && spaceFreed == old(spaceFreed) + SumSizes(walked)
      ensures r == Done(false) || r.Threw? ==> CancellationRequested(token, pollsOut)
      ensures r.Threw? ==> r.error == OperationCanceled
      ensures !CancellationRequested(token, pollsOut) ==> r == Done(true)
      ensures Taken(fileOps.fs.canon, walked) <= Reclaimable(old(fileOps.fs), SweptDirs(old(fileOps.fs), env), AnyAge)
      ensures r == Done(true) ==> Reclaimable(old(fileOps.fs), SweptDirs(old(fileOps.fs), env), AnyAge) <= Taken(fileOps.fs.canon, walked)
      ensures polls <= pollsOut
    {
      pollsOut, walked := polls, [];
      ghost var fs0 := fileOps.fs;
      ghost var keys := fileOps.fs.tree.Keys;
      var roots := Roots(fileOps.fs, env);
      var k := 0;
      while k < |roots|
        invariant 0 <= k <= |roots|
        invariant Valid() && keys == fileOps.fs.tree.Keys && polls <= pollsOut
        invariant fileOps.fs.tree == fs0.tree && fileOps.fs.canon == fs0.canon
        invariant ValidRemovals(fs0, walked) && fileOps.fs == RemoveAll(fs0, walked)
        invariant fileOps.recycleBin == old(fileOps.recycleBin) + walked
        invariant filesProcessed == old(filesProcessed) + |walked| && spaceFreed == old(spaceFreed) + SumSizes(walked)
        invariant Taken(fs0.canon, walked) <= Reclaimable(fs0, Swept(fs0.tree, fs0.canon, roots[..k]), AnyAge)
        invariant Reclaimable(fs0, Swept(fs0.tree, fs0.canon, roots[..k]), AnyAge) <= Taken(fs0.canon, walked)
      {
        var res;
        ghost var more;
        res, pollsOut, more := WalkRoot(roots[k], token, pollsOut, keys);
        SweepRootsStep(fs0, walked, more, roots, k, AnyAge);
        RemovalsAppend(fs0, walked, more);
        ConcatAssoc(old(fileOps.recycleBin), walked, more);
        walked := walked + more;
        if res != Done(true) {
          return res, pollsOut, walked;
        }
        k := k + 1;
      }
      PrefixAll(roots, k);
      r := Done(true);
    }

    /** One turn of the loop of `CleanAsync` (lines 54-74): a cancellation check that
        escapes, then, when the root exists, its walk with a fresh visited set; a walk left
        by cancellation gives `false`. */
    method WalkRoot(root: Path, token: CancellationToken, polls: nat, ghost keys: set<Path>)
      returns (r: Outcome<bool>, pollsOut: nat, ghost removed: seq<Removal>)
      requires Valid() && keys == fileOps.fs.tree.Keys
      modifies this, fileOps
      ensures Valid()
      ensures ValidRemovals(old(fileOps.fs), removed) && fileOps.fs == RemoveAll(old(fileOps.fs), removed)
      ensures fileOps.recycleBin == old(fileOps.recycleBin) + removed
      ensures filesProcessed == old(filesProcessed) + |removed| && spaceFreed == old(spaceFreed) + SumSizes(removed)
      ensures r == Done(false) || r.Threw? ==> CancellationRequested(token, pollsOut)
      ensures r.Threw? ==> r.error == OperationCanceled && removed == []
      ensures !CancellationRequested(token, pollsOut) ==> r == Done(true)
      ensures Taken(fileOps.fs.canon, removed) <= Reclaimable(old(fileOps.fs), Reached(fileOps.fs.tree, fileOps.fs.canon, root, {}), AnyAge)
      ensures r == Done(true) ==> Reclaimable(old(fileOps.fs), Reached(fileOps.fs.tree, fileOps.fs.canon, root, {}), AnyAge) <= Taken(fileOps.fs.canon, removed)
      ensures polls <= pollsOut
    {
      pollsOut, removed := polls, [];
      if CancellationRequested(token, pollsOut) {
        return Threw(OperationCanceled), pollsOut, removed;
      }
      pollsOut := pollsOut + 1;
      if !DirExists(fileOps.fs, root) {
        assert Reached(fileOps.fs.tree, fileOps.fs.canon, root, {}) == {};
        return Done(true), pollsOut, removed;
      }
      var res, visitedAfter;
      res, pollsOut, visitedAfter, removed := ProcessDirectory(root, token, pollsOut, {}, keys);
      r := if res.Threw? then Done(false) else Done(true);
    }

    /** `EstimateSizeAsync`: the roots' estimate, then the Explorer caches' sizes, whose
        errors escape. Without cancellation and with a listable cache directory the result
        is `EstimateTotal`; it never exceeds it. */
    method EstimateSize(token: CancellationToken, polls: nat) returns (r: Outcome<nat>, pollsOut: nat)
      ensures polls <= pollsOut
      ensures r.Done? ==> r.value <= EstimateTotal(fileOps.fs, env)
      ensures r.Threw? ==> (r.error == OperationCanceled && CancellationRequested(token, pollsOut)) ||
                           (r.error == UnauthorizedAccess(ExplorerCachePath(env)) && ExplorerListingFails(fileOps.fs, env))
      ensures !CancellationRequested(token, pollsOut) && !ExplorerListingFails(fileOps.fs, env) ==>
                r == Done(EstimateTotal(fileOps.fs, env))
    {
      var fs := fileOps.fs;
      var roots;
      roots, pollsOut := EstimateRoots(fs, Roots(fs, env), token, polls);
      if roots.Threw? {
        return roots, pollsOut;
      }
      var cache, pollsNext := EstimateExplorerCacheSize(fs, env, token, pollsOut);
      pollsOut := pollsNext;
      match cache {
        case Threw(e) => return Threw(e), pollsOut;
        case Done(n) => r := Done(roots.value + n);
      }
    }
  }

  /** The loop of `EstimateSizeAsync` (lines 103-121): for each root a cancellation check
      that escapes, then the estimate of each existing root with every error (cancellation
      included) caught. */
  method EstimateRoots(fs: Fs, roots: seq<Path>, token: CancellationToken, polls: nat)
    returns (r: Outcome<nat>, pollsOut: nat)
    ensures polls <= pollsOut
    ensures r.Threw? ==> r.error == OperationCanceled && CancellationRequested(token, pollsOut)
    ensures r.Done? ==> r.value <= RootsTotal(fs, roots)
    ensures !CancellationRequested(token, pollsOut) ==> r == Done(RootsTotal(fs, roots))
  {
    pollsOut := polls;
    var total: nat := 0;
    var k := 0;
    while k < |roots|
      invariant 0 <= k <= |roots|
      invariant polls <= pollsOut
      invariant total <= RootsTotal(fs, roots[..k])
      invariant !CancellationRequested(token, pollsOut) ==> total == RootsTotal(fs, roots[..k])
    {
      if CancellationRequested(token, pollsOut) {
        return Threw(OperationCanceled), pollsOut;
      }
      pollsOut := pollsOut + 1;
      PrefixStep(roots, k);
      var n;
      n, pollsOut := EstimateRoot(fs, roots[k], token, pollsOut);
      total := total + n;
      k := k + 1;
    }
    PrefixAll(roots, k);
    r := Done(total);
  }

  /** One root of that loop: a missing root adds nothing, and an error of the estimate,
      cancellation included, is caught and adds nothing; otherwise the root's estimate is
      exact. */
  method EstimateRoot(fs: Fs, root: Path, token: CancellationToken, polls: nat) returns (n: nat, pollsOut: nat)
    ensures polls <= pollsOut
    ensures n <= RootTotal(fs, root)
    ensures n == 0 || n == RootTotal(fs, root)
    ensures !CancellationRequested(token, pollsOut) ==> n == RootTotal(fs, root)
  {
    n, pollsOut := 0, polls;
    if DirExists(fs, root) {
      n, pollsOut := FileUtils.EstimateSizeOrZero(fs, root, AnyName, token, pollsOut);
    }
  }
}
