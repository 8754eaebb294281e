/** `OldFilesCleaner`: walks the three temporary directories and moves to the recycle bin
    every file, nobody holds open, that was created or last written before a cutoff a given
    number of days in the past. Times are `DateTime` ticks (100 ns). */
module OldFiles {
  import opened Common
  import opened FileSystem
  import opened FileOperations
  import opened Descent

  const TicksPerDay: int := 864_000_000_000

  /** The threshold the constructor takes when none is given. */
  const DefaultDaysThreshold: int := 30

  /** `DateTime.Now.AddDays(-days)`. */
  function Cutoff(now: int, days: int): int {
    now - days * TicksPerDay
  }

  /** Every removal of `rs` is an old file of the listing `files` of `dir`, under its own
      name (a recursive form, proved one removal at a time; `FromListingMeans` states it
      element by element). */
  ghost predicate FromListing(rs: seq<Removal>, dir: Path, files: seq<FileEntry>, cutoff: int) {
    rs == [] ||
    (FromListing(rs[..|rs| - 1], dir, files, cutoff) &&
     var x := rs[|rs| - 1]; x.file == FileRef(dir, x.entry.name) && x.entry in files && IsOld(x.entry, cutoff))
  }

  lemma {:induction false} FromListingMeans(rs: seq<Removal>, dir: Path, files: seq<FileEntry>, cutoff: int)
    ensures FromListing(rs, dir, files, cutoff) <==>
      forall x :: x in rs ==> x.file == FileRef(dir, x.entry.name) && x.entry in files && IsOld(x.entry, cutoff)
  {
    if rs != [] {
      FromListingMeans(rs[..|rs| - 1], dir, files, cutoff);
      SnocParts(rs);
    }
  }

  lemma FromListingAppend(a: seq<Removal>, b: seq<Removal>, dir: Path, files: seq<FileEntry>, cutoff: int)
    requires FromListing(a, dir, files, cutoff) && FromListing(b, dir, files, cutoff)
    ensures FromListing(a + b, dir, files, cutoff)
  {
    FromListingMeans(a, dir, files, cutoff);
    FromListingMeans(b, dir, files, cutoff);
    FromListingMeans(a + b, dir, files, cutoff);
  }

  /** Every old file among the first `n` of the listing `files` of `dir` that nobody holds
      and that may be opened has its removal in `rs`. */
  ghost predicate Covered(rs: seq<Removal>, dir: Path, files: seq<FileEntry>, n: nat, cutoff: int)
    requires n <= |files|
  {
    forall k :: 0 <= k < n && IsOld(files[k], cutoff) && !files[k].locked && !files[k].denied ==>
      Removal(FileRef(dir, files[k].name), files[k]) in rs
  }

  lemma CoveredStep(rs: seq<Removal>, more: seq<Removal>, dir: Path, files: seq<FileEntry>, i: nat, cutoff: int)
    requires i < |files| && Covered(rs, dir, files, i, cutoff)
    requires IsOld(files[i], cutoff) && !files[i].locked && !files[i].denied ==>
      more == [Removal(FileRef(dir, files[i].name), files[i])]
    ensures Covered(rs + more, dir, files, i + 1, cutoff)
  {
    forall k | 0 <= k < i + 1 && IsOld(files[k], cutoff) && !files[k].locked && !files[k].denied
      ensures Removal(FileRef(dir, files[k].name), files[k]) in rs + more
    {
      if k == i {
        assert (rs + more)[|rs|] == more[0];
      } else {
        var j :| 0 <= j < |rs| && rs[j] == Removal(FileRef(dir, files[k].name), files[k]);
        assert (rs + more)[j] == rs[j];
      }
    }
  }

  /** A covered listing, read file by file: removals appended later keep it covered. */
  lemma CoveredMeans(rs: seq<Removal>, more: seq<Removal>, dir: Path, files: seq<FileEntry>, cutoff: int)
    requires Covered(rs, dir, files, |files|, cutoff)
    ensures forall e :: e in files && IsOld(e, cutoff) && !e.locked && !e.denied ==> Removal(FileRef(dir, e.name), e) in rs + more
  {
    forall e | e in files && IsOld(e, cutoff) && !e.locked && !e.denied
      ensures Removal(FileRef(dir, e.name), e) in rs + more
    {
      var k :| 0 <= k < |files| && files[k] == e;
      var j :| 0 <= j < |rs| && rs[j] == Removal(FileRef(dir, e.name), e);
      assert (rs + more)[j] == rs[j];
    }
  }

  /** The summed sizes of the old files of a listing. */
  function OldBytes(files: seq<FileEntry>, cutoff: int): nat {
    if files == [] then 0
    else OldBytes(files[..|files| - 1], cutoff) + (if IsOld(files[|files| - 1], cutoff) then files[|files| - 1].size else 0)
  }

  /** What `EstimateOldFilesSizeAsync` returns for `dir` with `visited` on entry: nothing for
      a visited, missing or unlistable directory; otherwise the old files' sizes plus, unless
      the subdirectories cannot be listed, the estimates of the subdirectories. */
  function OldSize(fs: Fs, dir: Path, cutoff: int, visited: set<Path>): nat
    decreases |fs.tree.Keys - visited|, 0
  {
    var c := fs.canon(dir);
    if c in visited || c !in fs.tree || fs.tree[c].filesFail then 0
    else
      OldBytes(FilesOf(fs, dir), cutoff) +
      if fs.tree[c].subdirsFail then 0
      else
        VisitShrinks(fs.tree.Keys, visited, c);
        OldSizeSubdirs(fs, fs.tree[c].subdirs, cutoff, visited + {c})
  }

  /** The estimates of the subdirectories in `subs`, each one walked with the visited set the
      earlier walks left and skipped when it is in that set. */
  function OldSizeSubdirs(fs: Fs, subs: seq<Path>, cutoff: int, visited: set<Path>): nat
    decreases |fs.tree.Keys - visited|, 1, |subs|
  {
    if subs == [] then 0
    else
      var v := AfterSubdirs(fs.tree, fs.canon, subs[..|subs| - 1], visited);
      var last := subs[|subs| - 1];
      OldSizeSubdirs(fs, subs[..|subs| - 1], cutoff, visited) +
      if fs.canon(last) in v then 0
      else
        FewerUnvisited(fs.tree.Keys, visited, v);
        OldSize(fs, last, cutoff, v)
  }

  /** The estimate of the roots that exist, each walked with a fresh visited set. */
  function OldRootsTotal(fs: Fs, roots: seq<Path>, cutoff: int): nat {
    if roots == [] then 0
    else OldRootsTotal(fs, roots[..|roots| - 1], cutoff) +
         (if DirExists(fs, roots[|roots| - 1]) then OldSize(fs, roots[|roots| - 1], cutoff, {}) else 0)
  }

  lemma OldSizeSubdirsSnoc(fs: Fs, subs: seq<Path>, i: nat, cutoff: int, visited: set<Path>)
    requires i < |subs|
    ensures OldSizeSubdirs(fs, subs[..i + 1], cutoff, visited) ==
      var v := AfterSubdirs(fs.tree, fs.canon, subs[..i], visited);
      OldSizeSubdirs(fs, subs[..i], cutoff, visited) + (if fs.canon(subs[i]) in v then 0 else OldSize(fs, subs[i], cutoff, v))
  {
    PrefixStep(subs, i);
  }

  lemma {:induction false} OldBytesMonotone(files: seq<FileEntry>, earlier: int, later: int)
    requires earlier <= later
    ensures OldBytes(files, earlier) <= OldBytes(files, later)
  {
    if files != [] {
      OldBytesMonotone(files[..|files| - 1], earlier, later);
    }
  }

  /** A later cutoff makes more files old, so the estimate can only grow with it. */
  lemma {:induction false} OldSizeMonotone(fs: Fs, dir: Path, earlier: int, later: int, visited: set<Path>)
    requires earlier <= later
    ensures OldSize(fs, dir, earlier, visited) <= OldSize(fs, dir, later, visited)
    decreases |fs.tree.Keys - visited|, 0
  {
    var c := fs.canon(dir);
    if !(c in visited || c !in fs.tree || fs.tree[c].filesFail) {
      OldBytesMonotone(FilesOf(fs, dir), earlier, later);
      if !fs.tree[c].subdirsFail {
        VisitShrinks(fs.tree.Keys, visited, c);
        OldSizeSubdirsMonotone(fs, fs.tree[c].subdirs, earlier, later, visited + {c});
      }
    }
  }

  lemma {:induction false} OldSizeSubdirsMonotone(fs: Fs, subs: seq<Path>, earlier: int, later: int, visited: set<Path>)
    requires earlier <= later
    ensures OldSizeSubdirs(fs, subs, earlier, visited) <= OldSizeSubdirs(fs, subs, later, visited)
    decreases |fs.tree.Keys - visited|, 1, |subs|
  {
    if subs != [] {
      OldSizeSubdirsMonotone(fs, subs[..|subs| - 1], earlier, later, visited);
      var v := AfterSubdirs(fs.tree, fs.canon, subs[..|subs| - 1], visited);
      if fs.canon(subs[|subs| - 1]) !in v {
        FewerUnvisited(fs.tree.Keys, visited, v);
        OldSizeMonotone(fs, subs[|subs| - 1], earlier, later, v);
      }
    }
  }

  /** The file loop of `EstimateOldFilesSizeAsync` (lines 163-179): a cancellation check
      that escapes per file, and the cached size of each old file. */
  method SumOldBytes(files: seq<FileEntry>, cutoff: int, token: CancellationToken, polls: nat)
    returns (r: Outcome<nat>, pollsOut: nat)
    ensures polls <= pollsOut
    ensures r.Threw? ==> r.error == OperationCanceled && CancellationRequested(token, pollsOut)
    ensures r.Done? ==> r.value == OldBytes(files, cutoff)
  {
    pollsOut := polls;
    var total := 0;
    var i := 0;
    while i < |files|
      invariant 0 <= i <= |files|
      invariant polls <= pollsOut
      invariant total == OldBytes(files[..i], cutoff)
    {
      if CancellationRequested(token, pollsOut) {
        return Threw(OperationCanceled), pollsOut;
      }
      pollsOut := pollsOut + 1;
      PrefixStep(files, i);
      if IsOld(files[i], cutoff) {
        total := total + files[i].size;
      }
      i := i + 1;
    }
    PrefixAll(files, i);
    r := Done(total);
  }

  /** `EstimateOldFilesSizeAsync`, with the visited set passed in and handed back. Its
      cancellation checks escape; otherwise it computes `OldSize` and leaves the visited set
      as the walk does. */
  method EstimateOldFilesSize(fs: Fs, dir: Path, cutoff: int, token: CancellationToken, polls: nat, visited: set<Path>)
    returns (r: Outcome<nat>, pollsOut: nat, visitedOut: set<Path>)
    ensures polls <= pollsOut
    ensures r.Threw? ==> r.error == OperationCanceled && CancellationRequested(token, pollsOut)
    ensures r.Done? ==> r.value == OldSize(fs, dir, cutoff, visited) && visitedOut == After(fs.tree, fs.canon, dir, visited)
    decreases |fs.tree.Keys - visited|, 0
  {
    pollsOut, visitedOut := polls, visited;
    var c := fs.canon(dir);
    if c in visited {
      return Done(0), pollsOut, visitedOut;
    }
    AfterUnfold(fs.tree, fs.canon, dir, visited);
    visitedOut := visited + {c};
    if !DirExists(fs, dir) || Node(fs, dir).filesFail {
      return Done(0), pollsOut, visitedOut;
    }
    var here;
    here, pollsOut := SumOldBytes(FilesOf(fs, dir), cutoff, token, pollsOut);
    if here.Threw? || Node(fs, dir).subdirsFail {
      return here, pollsOut, visitedOut;
    }
    VisitShrinks(fs.tree.Keys, visited, c);
    var below;
    below, pollsOut, visitedOut := EstimateOldSubdirs(fs, Node(fs, dir).subdirs, cutoff, token, pollsOut, visitedOut);
    if below.Threw? {
      return below, pollsOut, visitedOut;
    }
    r := Done(here.value + below.value);
    visitedOut := visitedOut - {c};
  }

  /** The subdirectory loop of `EstimateOldFilesSizeAsync` (lines 198-209). */
  method EstimateOldSubdirs(fs: Fs, subs: seq<Path>, cutoff: int, token: CancellationToken, polls: nat, visited: set<Path>)
    returns (r: Outcome<nat>, pollsOut: nat, visitedOut: set<Path>)
    ensures polls <= pollsOut
    ensures r.Threw? ==> r.error == OperationCanceled && CancellationRequested(token, pollsOut)
    ensures r.Done? ==> r.value == OldSizeSubdirs(fs, subs, cutoff, visited) &&
                        visitedOut == AfterSubdirs(fs.tree, fs.canon, subs, visited)
    decreases |fs.tree.Keys - visited|, 1
  {
    pollsOut, visitedOut := polls, visited;
    var total := 0;
    var i := 0;
    while i < |subs|
      invariant 0 <= i <= |subs|
      invariant polls <= pollsOut
      invariant total == OldSizeSubdirs(fs, subs[..i], cutoff, visited)
      invariant visitedOut == AfterSubdirs(fs.tree, fs.canon, subs[..i], visited)
    {
      if CancellationRequested(token, pollsOut) {
        return Threw(OperationCanceled), pollsOut, visitedOut;
      }
      pollsOut := pollsOut + 1;
      AfterSubdirsSnoc(fs.tree, fs.canon, subs, i, visited);
      OldSizeSubdirsSnoc(fs, subs, i, cutoff, visited);
      if fs.canon(subs[i]) !in visitedOut {
        FewerUnvisited(fs.tree.Keys, visited, visitedOut);
        var size;
        size, pollsOut, visitedOut := EstimateOldFilesSize(fs, subs[i], cutoff, token, pollsOut, visitedOut);
        if size.Threw? {
          return size, pollsOut, visitedOut;
        }
        total := total + size.value;
      }
      i := i + 1;
    }
    PrefixAll(subs, i);
    r := Done(total);
  }

  /** The canonical directories whose files a run handles: those the walks of the three
      temporary directories reach, each walked with a fresh visited set. */
  function OldSweptDirs(fs: Fs, env: Env): set<Path> {
    Swept(fs.tree, fs.canon, TempDirectories(env))
  }

  class OldFilesCleaner {
    const fileOps: FileOperationsService
    const env: Env
    const daysThreshold: int
    var spaceFreed: nat
    var filesProcessed: nat

    ghost predicate Valid()
      reads this, fileOps
    {
      fileOps.Valid()
    }

    constructor (fileOps: FileOperationsService, env: Env, daysThreshold: int)
      ensures this.fileOps == fileOps && this.env == env && this.daysThreshold == daysThreshold
      ensures spaceFreed == 0 && filesProcessed == 0
    {
      this.fileOps := fileOps;
      this.env := env;
      this.daysThreshold := daysThreshold;
      spaceFreed := 0;
      filesProcessed := 0;
    }

    /** The body of the file loop of `ProcessDirectoryForOldFilesAsync` (lines 271-305) for a
        listed file `f` with entry `e`: an old file not in use is moved, and a move counts the
        file and its listed size. An error from the in-use test is caught and logged. */
    method ReclaimIfOld(f: FileRef, e: FileEntry, cutoff: int) returns (ghost removed: seq<Removal>)
      requires Valid() && Lookup(fileOps.fs, f) == Some(e)
      modifies this, fileOps
      ensures Valid()
      ensures removed == if IsOld(e, cutoff) && OpenExclusive(old(fileOps.fs), f) == Opened then [Removal(f, e)] else []
      ensures removed == [] ==> fileOps.fs == old(fileOps.fs)
      ensures removed != [] ==> fileOps.fs == RemoveFile(old(fileOps.fs), f)
      ensures ValidRemovals(old(fileOps.fs), removed) && fileOps.fs == RemoveAll(old(fileOps.fs), removed)
      ensures fileOps.recycleBin == old(fileOps.recycleBin) + removed
      ensures filesProcessed == old(filesProcessed) + |removed| && spaceFreed == old(spaceFreed) + SumSizes(removed)
    {
      removed := [];
      if IsOld(e, cutoff) {
        var inUse := fileOps.IsFileInUse(f);
        if inUse == Done(false) {
          var moved := fileOps.MoveToRecycleBin(f);
          filesProcessed := filesProcessed + 1;
          spaceFreed := spaceFreed + e.size;
          ghost var x := Removal(f, e);
          RemovalsSnoc(old(fileOps.fs), [], x);
          AppendEmpty([x]);
          removed := [x];
        }
      }
    }

    /** The file loop of `ProcessDirectoryForOldFilesAsync` (lines 267-306) over the listing
        of `dir`: a cancellation check per file that escapes, then the step above. Without
        cancellation every old file nobody holds open is moved, and nothing else is. */
    method ProcessOldFiles(dir: Path, files: seq<FileEntry>, cutoff: int, token: CancellationToken, polls: nat)
      returns (r: Outcome<()>, pollsOut: nat, ghost removed: seq<Removal>)
      requires Valid() && files == FilesOf(fileOps.fs, dir)
      modifies this, fileOps
      ensures Valid()
      ensures ValidRemovals(old(fileOps.fs), removed) && fileOps.fs == RemoveAll(old(fileOps.fs), removed)
      ensures fileOps.recycleBin == old(fileOps.recycleBin) + removed
      ensures filesProcessed == old(filesProcessed) + |removed| && spaceFreed == old(spaceFreed) + SumSizes(removed)
      ensures FromListing(removed, dir, files, cutoff)
      ensures r.Done? ==> Covered(removed, dir, files, |files|, cutoff)
      ensures Taken(fileOps.fs.canon, removed) <= Reclaimable(old(fileOps.fs), {fileOps.fs.canon(dir)}, OlderThan(cutoff))
      ensures r.Done? ==> Reclaimable(old(fileOps.fs), {fileOps.fs.canon(dir)}, OlderThan(cutoff)) <= Taken(fileOps.fs.canon, removed)
      ensures r.Threw? ==> r.error == OperationCanceled && CancellationRequested(token, pollsOut)
      ensures polls <= pollsOut
    {
      pollsOut, removed := polls, [];
      ListedFilesFound(fileOps.fs, dir);
      var i := 0;
      while i < |files|
        invariant 0 <= i <= |files|
        invariant Valid() && polls <= pollsOut
        invariant ValidRemovals(old(fileOps.fs), removed) && fileOps.fs == RemoveAll(old(fileOps.fs), removed)
        invariant fileOps.recycleBin == old(fileOps.recycleBin) + removed
        invariant filesProcessed == old(filesProcessed) + |removed| && spaceFreed == old(spaceFreed) + SumSizes(removed)
        invariant forall k :: i <= k < |files| ==> Lookup(fileOps.fs, FileRef(dir, files[k].name)) == Some(files[k])
        invariant FromListing(removed, dir, files, cutoff)
        invariant Covered(removed, dir, files, i, cutoff)
      {
        if CancellationRequested(token, pollsOut) {
          FromListingMeans(removed, dir, files, cutoff);
          ListingSweep(old(fileOps.fs), dir, files, removed, OlderThan(cutoff));
          return Threw(OperationCanceled), pollsOut, removed;
        }
        pollsOut := pollsOut + 1;
        var f := FileRef(dir, files[i].name);
        ghost var before := fileOps.fs;
        ghost var more := ReclaimIfOld(f, files[i], cutoff);
        if more != [] {
          assert more == [] + [Removal(f, files[i])];
        }
        FromListingAppend(removed, more, dir, files, cutoff);
        CoveredStep(removed, more, dir, files, i, cutoff);
        RemovalsAppend(old(fileOps.fs), removed, more);
        ConcatAssoc(old(fileOps.recycleBin), removed, more);
        removed := removed + more;
        if more != [] {
          forall k | i < k < |files| ensures Lookup(fileOps.fs, FileRef(dir, files[k].name)) == Some(files[k]) {
            LookupAfterRemove(before, f, FileRef(dir, files[k].name));
          }
        }
        i := i + 1;
      }
      r := Done(());
      FromListingMeans(removed, dir, files, cutoff);
      CoveredMeans(removed, [], dir, files, cutoff);
      AppendEmpty(removed);
      ListingSweep(old(fileOps.fs), dir, files, removed, OlderThan(cutoff));
    }

    /** `ProcessDirectoryForOldFilesAsync`, with the visited set passed in and handed back:
        the walk of `TemporaryFilesCleaner.ProcessDirectoryAsync` with the age filter. */
    method ProcessDirectoryForOldFiles(dir: Path, cutoff: int, token: CancellationToken, polls: nat, visited: set<Path>, ghost keys: set<Path>)
      returns (r: Outcome<()>, pollsOut: nat, visitedOut: set<Path>, ghost removed: seq<Removal>)
      requires Valid() && keys == fileOps.fs.tree.Keys
      modifies this, fileOps
      ensures Valid()
      ensures ValidRemovals(old(fileOps.fs), removed) && fileOps.fs == RemoveAll(old(fileOps.fs), removed)
      ensures fileOps.recycleBin == old(fileOps.recycleBin) + removed
      ensures filesProcessed == old(filesProcessed) + |removed| && spaceFreed == old(spaceFreed) + SumSizes(removed)
      ensures r.Done? ==> visitedOut == After(fileOps.fs.tree, fileOps.fs.canon, dir, visited)
      ensures r.Done? && fileOps.fs.canon(dir) !in visited && DirExists(fileOps.fs, dir) && !Node(fileOps.fs, dir).filesFail ==>
                forall e :: e in FilesOf(old(fileOps.fs), dir) && IsOld(e, cutoff) && !e.locked && !e.denied ==>
                  Removal(FileRef(dir, e.name), e) in removed
      ensures Taken(fileOps.fs.canon, removed) <= Reclaimable(old(fileOps.fs), Reached(fileOps.fs.tree, fileOps.fs.canon, dir, visited), OlderThan(cutoff))
      ensures r.Done? ==> Reclaimable(old(fileOps.fs), Reached(fileOps.fs.tree, fileOps.fs.canon, dir, visited), OlderThan(cutoff)) <= Taken(fileOps.fs.canon, removed)
      ensures r.Threw? ==> r.error == OperationCanceled && CancellationRequested(token, pollsOut)
      ensures polls <= pollsOut
      decreases |keys - visited|, 0
    {
      pollsOut, visitedOut, removed := polls, visited, [];
      ghost var tree, canon := fileOps.fs.tree, fileOps.fs.canon;
      var c := fileOps.fs.canon(dir);
      if c in visited {
        return Done(()), pollsOut, visitedOut, removed;
      }
      AfterUnfold(tree, canon, dir, visited);
      visitedOut := visited + {c};
      if !DirExists(fileOps.fs, dir) || Node(fileOps.fs, dir).filesFail {
        return Done(()), pollsOut, visitedOut, removed;
      }
      ghost var fs0 := fileOps.fs;
      ghost var reached := Reached(tree, canon, dir, visited);
      r, pollsOut, removed := ProcessOldFiles(dir, FilesOf(fileOps.fs, dir), cutoff, token, pollsOut);
      FromListingMeans(removed, dir, FilesOf(fs0, dir), cutoff);
      assert fileOps.fs.tree == tree && fileOps.fs.canon == canon;
      ReclaimableMono(fs0, {c}, reached, OlderThan(cutoff));
      if r.Threw? {
        return;
      }
      if Node(fileOps.fs, dir).subdirsFail {
        CoveredMeans(removed, [], dir, FilesOf(fs0, dir), cutoff);
        AppendEmpty(removed);
        return;
      }
      VisitShrinks(keys, visited, c);
      ghost var more;
      ghost var below := ReachedSubdirs(tree, canon, tree[c].subdirs, visited + {c});
      r, pollsOut, visitedOut, more := ProcessOldSubdirs(Node(fileOps.fs, dir).subdirs, cutoff, token, pollsOut, visitedOut, keys);
      assert fileOps.fs.tree == tree && fileOps.fs.canon == canon;
      ComposeSweeps(fs0, removed, more, {c}, below, OlderThan(cutoff));
      assert reached == {c} + below;
      RemovalsAppend(fs0, removed, more);
      ConcatAssoc(old(fileOps.recycleBin), removed, more);
      CoveredMeans(removed, more, dir, FilesOf(fs0, dir), cutoff);
      removed := removed + more;
      if r.Threw? {
        return;
      }
      visitedOut := visitedOut - {c};
    }

    /** One turn of the subdirectory loop of `ProcessDirectoryForOldFilesAsync` (lines
        327-338): a cancellation check that escapes, then the walk of `sub` unless it is in
        the visited set. */
    method VisitOldSubdir(sub: Path, cutoff: int, token: CancellationToken, polls: nat, visited: set<Path>, ghost keys: set<Path>)
      returns (r: Outcome<()>, pollsOut: nat, visitedOut: set<Path>, ghost removed: seq<Removal>)
      requires Valid() && keys == fileOps.fs.tree.Keys
      modifies this, fileOps
      ensures Valid()
      ensures ValidRemovals(old(fileOps.fs), removed) && fileOps.fs == RemoveAll(old(fileOps.fs), removed)
      ensures fileOps.recycleBin == old(fileOps.recycleBin) + removed
      ensures filesProcessed == old(filesProcessed) + |removed| && spaceFreed == old(spaceFreed) + SumSizes(removed)
      ensures r.Done? ==> visitedOut == After(fileOps.fs.tree, fileOps.fs.canon, sub, visited)
      ensures Taken(fileOps.fs.canon, removed) <= Reclaimable(old(fileOps.fs), Reached(fileOps.fs.tree, fileOps.fs.canon, sub, visited), OlderThan(cutoff))
      ensures r.Done? ==> Reclaimable(old(fileOps.fs), Reached(fileOps.fs.tree, fileOps.fs.canon, sub, visited), OlderThan(cutoff)) <= Taken(fileOps.fs.canon, removed)
      ensures r.Threw? ==> r.error == OperationCanceled && CancellationRequested(token, pollsOut)
      ensures polls <= pollsOut
      decreases |keys - visited|, 1
    {
      pollsOut, visitedOut, removed := polls, visited, [];
      if CancellationRequested(token, pollsOut) {
        return Threw(OperationCanceled), pollsOut, visitedOut, removed;
      }
      pollsOut := pollsOut + 1;
      if fileOps.fs.canon(sub) in visited {
        return Done(()), pollsOut, visitedOut, removed;
      }
      r, pollsOut, visitedOut, removed := ProcessDirectoryForOldFiles(sub, cutoff, token, pollsOut, visited, keys);
    }

    /** The subdirectory loop of `ProcessDirectoryForOldFilesAsync` (lines 325-339). */
    method ProcessOldSubdirs(subs: seq<Path>, cutoff: int, token: CancellationToken, polls: nat, visited: set<Path>, ghost keys: set<Path>)
      returns (r: Outcome<()>, pollsOut: nat, visitedOut: set<Path>, ghost removed: seq<Removal>)
      requires Valid() && keys == fileOps.fs.tree.Keys
      modifies this, fileOps
      ensures Valid()
      ensures ValidRemovals(old(fileOps.fs), removed) && fileOps.fs == RemoveAll(old(fileOps.fs), removed)
      ensures fileOps.recycleBin == old(fileOps.recycleBin) + removed
      ensures filesProcessed == old(filesProcessed) + |removed| && spaceFreed == old(spaceFreed) + SumSizes(removed)
      ensures r.Done? ==> visitedOut == AfterSubdirs(fileOps.fs.tree, fileOps.fs.canon, subs, visited)
      ensures Taken(fileOps.fs.canon, removed) <= Reclaimable(old(fileOps.fs), ReachedSubdirs(fileOps.fs.tree, fileOps.fs.canon, subs, visited), OlderThan(cutoff))
      ensures r.Done? ==> Reclaimable(old(fileOps.fs), ReachedSubdirs(fileOps.fs.tree, fileOps.fs.canon, subs, visited), OlderThan(cutoff)) <= Taken(fileOps.fs.canon, removed)
      ensures r.Threw? ==> r.error == OperationCanceled && CancellationRequested(token, pollsOut)
      ensures polls <= pollsOut
      decreases |keys - visited|, 2
    {
      pollsOut, visitedOut, removed := polls, visited, [];
      ghost var fs0 := fileOps.fs;
      var i := 0;
      while i < |subs|
        invariant 0 <= i <= |subs|
        invariant Valid() && keys == fs0.tree.Keys && polls <= pollsOut
        invariant fileOps.fs.tree == fs0.tree && fileOps.fs.canon == fs0.canon
        invariant ValidRemovals(fs0, removed) && fileOps.fs == RemoveAll(fs0, removed)
        invariant fileOps.recycleBin == old(fileOps.recycleBin) + removed
        invariant filesProcessed == old(filesProcessed) + |removed| && spaceFreed == old(spaceFreed) + SumSizes(removed)
        invariant visitedOut == AfterSubdirs(fs0.tree, fs0.canon, subs[..i], visited)
        invariant Taken(fs0.canon, removed) <= Reclaimable(fs0, ReachedSubdirs(fs0.tree, fs0.canon, subs[..i], visited), OlderThan(cutoff))
        invariant Reclaimable(fs0, ReachedSubdirs(fs0.tree, fs0.canon, subs[..i], visited), OlderThan(cutoff)) <= Taken(fs0.canon, removed)
      {
        AfterSubdirsSnoc(fs0.tree, fs0.canon, subs, i, visited);
        FewerUnvisited(keys, visited, visitedOut);
        var res;
        ghost var more;
        res, pollsOut, visitedOut, more := VisitOldSubdir(subs[i], cutoff, token, pollsOut, visitedOut, keys);
        SweepSubdirsStep(fs0, removed, more, subs, i, visited, OlderThan(cutoff));
        RemovalsAppend(fs0, removed, more);
        ConcatAssoc(old(fileOps.recycleBin), removed, more);
          removed := removed + more;
        if res.Threw? {
          return res, pollsOut, visitedOut, removed;
        }
        i := i + 1;
      }
      PrefixAll(subs, i);
      r := Done(());
    }

    /** `CleanAsync` at the moment `now`: counters reset, then the walks below. Only
        cancellation can leave a walk, and it makes the result `false`. Every file moved was
        old at the cutoff. */
    method Clean(now: int, token: CancellationToken, polls: nat)
      returns (r: Outcome<bool>, pollsOut: nat, ghost removed: seq<Removal>)
      requires Valid()
      modifies this, fileOps
      ensures Valid()
      ensures ValidRemovals(old(fileOps.fs), removed) && fileOps.fs == RemoveAll(old(fileOps.fs), removed)
      ensures fileOps.recycleBin == old(fileOps.recycleBin) + removed
      ensures filesProcessed == |removed| && spaceFreed == SumSizes(removed)
      ensures forall x :: x in removed ==> IsOld(x.entry, Cutoff(now, daysThreshold))
      ensures r == Done(false) || r.Threw? ==> CancellationRequested(token, pollsOut)
      ensures r.Threw? ==> r.error == OperationCanceled
      ensures !CancellationRequested(token, pollsOut) ==> r == Done(true)
      ensures Taken(old(fileOps.fs).canon, removed) <=
                Reclaimable(old(fileOps.fs), OldSweptDirs(old(fileOps.fs), env), OlderThan(Cutoff(now, daysThreshold)))
      ensures r == Done(true) ==>
                Reclaimable(old(fileOps.fs), OldSweptDirs(old(fileOps.fs), env), OlderThan(Cutoff(now, daysThreshold))) <=
                  Taken(old(fileOps.fs).canon, removed)
      ensures polls <= pollsOut
    {
      spaceFreed := 0;
      filesProcessed := 0;
      var cutoff := Cutoff(now, daysThreshold);
      r, pollsOut, removed := CleanRoots(cutoff, token, polls);
      TakenWanted(old(fileOps.fs), removed, OldSweptDirs(old(fileOps.fs), env), OlderThan(cutoff));
    }

    /** The loop of `CleanAsync` (lines 48-72): for each temporary directory a cancellation
        check that escapes, then a walk with a fresh visited set; a walk left by
        cancellation ends the loop with `false`. */
    method CleanRoots(cutoff: int, token: CancellationToken, polls: nat)
      returns (r: Outcome<bool>, pollsOut: nat, ghost removed: seq<Removal>)
      requires Valid()
      modifies this, fileOps
      ensures Valid()
      ensures ValidRemovals(old(fileOps.fs), removed) && fileOps.fs == RemoveAll(old(fileOps.fs), removed)
      ensures fileOps.recycleBin == old(fileOps.recycleBin) + removed
      ensures filesProcessed == old(filesProcessed) + |removed| && spaceFreed == old(spaceFreed) + SumSizes(removed)
      ensures r == Done(false) || r.Threw? ==> CancellationRequested(token, pollsOut)
      ensures r.Threw? ==> r.error == OperationCanceled
      ensures !CancellationRequested(token, pollsOut) ==> r == Done(true)
      ensures Taken(old(fileOps.fs).canon, removed) <= Reclaimable(old(fileOps.fs), OldSweptDirs(old(fileOps.fs), env), OlderThan(cutoff))
      ensures r == Done(true) ==> Reclaimable(old(fileOps.fs), OldSweptDirs(old(fileOps.fs), env), OlderThan(cutoff)) <= Taken(old(fileOps.fs).canon, removed)
      ensures polls <= pollsOut
    {
      pollsOut, removed := polls, [];
      ghost var fs0 := fileOps.fs;
      ghost var keys := fileOps.fs.tree.Keys;
      var roots := TempDirectories(env);
      var k := 0;
      while k < |roots|
        invariant 0 <= k <= |roots|
        invariant Valid() && keys == fileOps.fs.tree.Keys && polls <= pollsOut
        invariant fileOps.fs.tree == fs0.tree && fileOps.fs.canon == fs0.canon
        invariant ValidRemovals(fs0, removed) && fileOps.fs == RemoveAll(fs0, removed)
        invariant fileOps.recycleBin == old(fileOps.recycleBin) + removed
        invariant filesProcessed == old(filesProcessed) + |removed| && spaceFreed == old(spaceFreed) + SumSizes(removed)
        invariant Taken(fs0.canon, removed) <= Reclaimable(fs0, Swept(fs0.tree, fs0.canon, roots[..k]), OlderThan(cutoff))
        invariant Reclaimable(fs0, Swept(fs0.tree, fs0.canon, roots[..k]), OlderThan(cutoff)) <= Taken(fs0.canon, removed)
      {
        var res;
        ghost var more;
        res, pollsOut, more := WalkOldRoot(roots[k], cutoff, token, pollsOut, keys);
        SweepRootsStep(fs0, removed, more, roots, k, OlderThan(cutoff));
        RemovalsAppend(fs0, removed, more);
        ConcatAssoc(old(fileOps.recycleBin), removed, more);
          removed := removed + more;
        if res != Done(true) {
          return res, pollsOut, removed;
        }
        k := k + 1;
      }
      PrefixAll(roots, k);
      r := Done(true);
    }

    /** One turn of the loop of `CleanAsync` (lines 50-71): a cancellation check that
        escapes, then, when the directory exists, its walk with a fresh visited set; a walk
        left by cancellation gives `false`. */
    method WalkOldRoot(root: Path, cutoff: int, token: CancellationToken, polls: nat, ghost keys: set<Path>)
      returns (r: Outcome<bool>, pollsOut: nat, ghost removed: seq<Removal>)
      requires Valid() && keys == fileOps.fs.tree.Keys
      modifies this, fileOps
      ensures Valid()
      ensures ValidRemovals(old(fileOps.fs), removed) && fileOps.fs == RemoveAll(old(fileOps.fs), removed)
      ensures fileOps.recycleBin == old(fileOps.recycleBin) + removed
      ensures filesProcessed == old(filesProcessed) + |removed| && spaceFreed == old(spaceFreed) + SumSizes(removed)
      ensures r == Done(false) || r.Threw? ==> CancellationRequested(token, pollsOut)
      ensures r.Threw? ==> r.error == OperationCanceled && removed == []
      ensures !CancellationRequested(token, pollsOut) ==> r == Done(true)
      ensures Taken(fileOps.fs.canon, removed) <= Reclaimable(old(fileOps.fs), Reached(fileOps.fs.tree, fileOps.fs.canon, root, {}), OlderThan(cutoff))
      ensures r == Done(true) ==> Reclaimable(old(fileOps.fs), Reached(fileOps.fs.tree, fileOps.fs.canon, root, {}), OlderThan(cutoff)) <= Taken(fileOps.fs.canon, removed)
      ensures polls <= pollsOut
    {
      pollsOut, removed := polls, [];
      if CancellationRequested(token, pollsOut) {
        return Threw(OperationCanceled), pollsOut, removed;
      }
      pollsOut := pollsOut + 1;
      if !DirExists(fileOps.fs, root) {
        assert Reached(fileOps.fs.tree, fileOps.fs.canon, root, {}) == {};
        return Done(true), pollsOut, removed;
      }
      var res, visitedAfter;
      res, pollsOut, visitedAfter, removed := ProcessDirectoryForOldFiles(root, cutoff, token, pollsOut, {}, keys);
      r := if res.Threw? then Done(false) else Done(true);
    }

    /** `EstimateSizeAsync` at the moment `now`: for each temporary directory a cancellation
        check that escapes, then the estimate of each existing one with every error
        (cancellation included) caught. Without cancellation the result is `OldRootsTotal`;
        it never exceeds it. */
    method EstimateSize(now: int, token: CancellationToken, polls: nat) returns (r: Outcome<nat>, pollsOut: nat)
      ensures polls <= pollsOut
      ensures r.Threw? ==> r.error == OperationCanceled && CancellationRequested(token, pollsOut)
      ensures r.Done? ==> r.value <= OldRootsTotal(fileOps.fs, TempDirectories(env), Cutoff(now, daysThreshold))
      ensures !CancellationRequested(token, pollsOut) ==>
                r == Done(OldRootsTotal(fileOps.fs, TempDirectories(env), Cutoff(now, daysThreshold)))
    {
      var fs := fileOps.fs;
      var cutoff := Cutoff(now, daysThreshold);
      pollsOut := polls;
      var roots := TempDirectories(env);
      var total := 0;
      var k := 0;
      while k < |roots|
        invariant 0 <= k <= |roots|
        invariant polls <= pollsOut
        invariant total <= OldRootsTotal(fs, roots[..k], cutoff)
        invariant !CancellationRequested(token, pollsOut) ==> total == OldRootsTotal(fs, roots[..k], cutoff)
      {
        if CancellationRequested(token, pollsOut) {
          return Threw(OperationCanceled), pollsOut;
        }
        pollsOut := pollsOut + 1;
        PrefixStep(roots, k);
        if DirExists(fs, roots[k]) {
          var size, pollsNext, visitedAfter := EstimateOldFilesSize(fs, roots[k], cutoff, token, pollsOut, {});
          pollsOut := pollsNext;
          match size {
            case Done(n) => total := total + n;
            case Threw(_) =>
          }
        }
        k := k + 1;
      }
      PrefixAll(roots, k);
      r := Done(total);
    }
  }
}
