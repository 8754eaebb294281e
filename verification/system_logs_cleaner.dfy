/** `SystemLogsCleaner`: moves log-like files found anywhere under the system drive, the
    full memory dump and the mini dumps to the recycle bin, then clears the event logs.
    Its directory scan, `FindFilesSafe`, keeps the directories on the current descent in
    a visited set, so it stops on a link back to a directory on the descent whenever the
    link leads to the same canonical path (see `FileSystem`; `Path.GetFullPath` alone does
    not resolve links). */
module SystemLogs {
  import opened Common
  import opened FileSystem
  import opened FileOperations
  import opened Reclaim
  import FileUtils

  /** Every removal in `rs` has a log-like name (stated one removal at a time;
      `AllLogNamesMeans` states it element by element). */
  ghost predicate AllLogNames(rs: seq<Removal>) {
    rs == [] || (AllLogNames(rs[..|rs| - 1]) && IsLogName(rs[|rs| - 1].file.name))
  }

  lemma {:induction false} AllLogNamesMeans(rs: seq<Removal>)
    ensures AllLogNames(rs) <==> forall x :: x in rs ==> IsLogName(x.file.name)
  {
    if rs != [] {
      AllLogNamesMeans(rs[..|rs| - 1]);
      SnocParts(rs);
    }
  }

  /** What one pattern stage removes has a log-like name. */
  lemma OneLogName(rs: seq<Removal>, k: nat)
    requires k < |LogPatterns| && |rs| <= 1
    requires forall x :: x in rs ==> Matches(LogPatterns[k], x.file.name)
    ensures AllLogNames(rs)
  {
    if rs != [] {
      assert rs[0] in rs;
      AppendEmpty(rs);
    }
  }

  lemma AllLogNamesAppend(a: seq<Removal>, b: seq<Removal>)
    requires AllLogNames(a) && AllLogNames(b)
    ensures AllLogNames(a + b)
  {
    AllLogNamesMeans(a);
    AllLogNamesMeans(b);
    AllLogNamesMeans(a + b);
  }

  /** The five search patterns, in the order they are scanned. */
  const LogPatterns: seq<Pattern> :=
    [EndsWith(".log"), EndsWith(".old"), EndsWith(".tmp"), EndsWith(".bak"), EndsWith(".trace")]

  const MiniDumpPattern := EndsWith(".dmp")

  /** The full memory dump and the mini-dump directory under the Windows directory. */
  function MemoryDump(windir: Path): FileRef { FileRef(windir, "memory.dmp") }

  function MiniDumpDir(windir: Path): Path { Combine(windir, "Minidump") }

  /** The names this cleaner may remove: one of the five log patterns, a mini dump, or the
      full memory dump. */
  predicate IsLogName(name: string) {
    (exists k :: 0 <= k < |LogPatterns| && Matches(LogPatterns[k], name)) ||
    Matches(MiniDumpPattern, name) || name == "memory.dmp"
  }

  /** The files `FindFilesSafe` returns from `root` when the directories in `visited` are on
      the current descent: nothing if `root` is one of them or does not exist; otherwise
      the root's matching files (unless listing them fails), then the results of each
      subdirectory not on the descent, in listing order (unless listing them fails). */
  function Find(fs: Fs, root: Path, pattern: Pattern, visited: set<Path>): seq<FileRef>
    decreases |fs.tree.Keys - visited|, 0
  {
    var c := fs.canon(root);
    if c in visited || !DirExists(fs, root) then []
    else
      (if Node(fs, root).filesFail then [] else MatchingFiles(fs, root, pattern)) +
      (if Node(fs, root).subdirsFail then []
       else VisitShrinks(fs.tree.Keys, visited, c);
            FindSubdirs(fs, Node(fs, root).subdirs, pattern, visited + {c}))
  }

  function FindSubdirs(fs: Fs, subs: seq<Path>, pattern: Pattern, visited: set<Path>): seq<FileRef>
    decreases |fs.tree.Keys - visited|, 1, |subs|
  {
    if subs == [] then []
    else FindSubdirs(fs, subs[..|subs| - 1], pattern, visited) +
         (if fs.canon(subs[|subs| - 1]) in visited then [] else Find(fs, subs[|subs| - 1], pattern, visited))
  }

  /** `Find` on a directory that is not on the descent and exists. */
  lemma FindUnfold(fs: Fs, root: Path, pattern: Pattern, visited: set<Path>)
    requires fs.canon(root) !in visited && DirExists(fs, root)
    ensures Find(fs, root, pattern, visited) ==
      (if Node(fs, root).filesFail then [] else MatchingFiles(fs, root, pattern)) +
      (if Node(fs, root).subdirsFail then []
       else FindSubdirs(fs, Node(fs, root).subdirs, pattern, visited + {fs.canon(root)}))
  {
  }

  lemma FindSubdirsSnoc(fs: Fs, subs: seq<Path>, i: nat, pattern: Pattern, visited: set<Path>)
    requires i < |subs|
    ensures FindSubdirs(fs, subs[..i + 1], pattern, visited) ==
      FindSubdirs(fs, subs[..i], pattern, visited) +
      (if fs.canon(subs[i]) in visited then [] else Find(fs, subs[i], pattern, visited))
  {
    PrefixStep(subs, i);
  }

  /** `FindFilesSafe`, with the visited set passed in and handed back. Every add is matched
      by a remove, so the set comes back as it went in. */
  method FindFilesSafe(fs: Fs, root: Path, pattern: Pattern, visited: set<Path>)
    returns (found: seq<FileRef>, visitedOut: set<Path>)
    ensures found == Find(fs, root, pattern, visited)
    ensures visitedOut == visited
    decreases |fs.tree.Keys - visited|, 0
  {
    var c := fs.canon(root);
    if c in visited || !DirExists(fs, root) {
      return [], visited;
    }
    var node := Node(fs, root);
    var files := if node.filesFail then [] else MatchingFiles(fs, root, pattern);
    var more := [];
    visitedOut := visited + {c};
    if !node.subdirsFail {
      VisitShrinks(fs.tree.Keys, visited, c);
      more, visitedOut := FindFilesInSubdirs(fs, node.subdirs, pattern, visitedOut);
    }
    FindUnfold(fs, root, pattern, visited);
    found := files + more;
    visitedOut := visitedOut - {c};
  }

  /** The subdirectory loop of `FindFilesSafe` (lines 263-277): each subdirectory not on the
      descent is scanned and its findings appended. */
  method FindFilesInSubdirs(fs: Fs, subs: seq<Path>, pattern: Pattern, visited: set<Path>)
    returns (found: seq<FileRef>, visitedOut: set<Path>)
    ensures found == FindSubdirs(fs, subs, pattern, visited)
    ensures visitedOut == visited
    decreases |fs.tree.Keys - visited|, 1
  {
    found, visitedOut := [], visited;
    var i := 0;
    while i < |subs|
      invariant 0 <= i <= |subs|
      invariant visitedOut == visited
      invariant found == FindSubdirs(fs, subs[..i], pattern, visited)
    {
      FindSubdirsSnoc(fs, subs, i, pattern, visited);
      if fs.canon(subs[i]) !in visitedOut {
        var more;
        more, visitedOut := FindFilesSafe(fs, subs[i], pattern, visitedOut);
        found := found + more;
      }
      i := i + 1;
    }
    PrefixAll(subs, i);
  }

  /** Every file the scan finds exists and matches the pattern. */
  lemma {:induction false} FindSound(fs: Fs, root: Path, pattern: Pattern, visited: set<Path>, f: FileRef)
    requires f in Find(fs, root, pattern, visited)
    ensures Matches(pattern, f.name) && FileExists(fs, f)
    decreases |fs.tree.Keys - visited|, 0
  {
    var c := fs.canon(root);
    if f !in MatchingFiles(fs, root, pattern) {
      VisitShrinks(fs.tree.Keys, visited, c);
      FindSubdirsSound(fs, Node(fs, root).subdirs, pattern, visited + {c}, f);
    }
  }

  lemma {:induction false} FindSubdirsSound(fs: Fs, subs: seq<Path>, pattern: Pattern, visited: set<Path>, f: FileRef)
    requires f in FindSubdirs(fs, subs, pattern, visited)
    ensures Matches(pattern, f.name) && FileExists(fs, f)
    decreases |fs.tree.Keys - visited|, 1, |subs|
  {
    var last := subs[|subs| - 1];
    if f in FindSubdirs(fs, subs[..|subs| - 1], pattern, visited) {
      FindSubdirsSound(fs, subs[..|subs| - 1], pattern, visited, f);
    } else {
      FindSound(fs, last, pattern, visited, f);
    }
  }

  /** A descent through distinct directories, none of them in `avoid`: each step follows a
      subdirectory link of a directory whose subdirectory listing succeeds. */
  ghost predicate SimplePath(fs: Fs, path: seq<Path>, avoid: set<Path>) {
    |path| >= 1 &&
    (forall i :: 0 <= i < |path| ==> fs.canon(path[i]) !in avoid) &&
    (forall i, j :: 0 <= i < j < |path| ==> fs.canon(path[i]) != fs.canon(path[j])) &&
    (forall i :: 0 <= i < |path| - 1 ==>
       DirExists(fs, path[i]) && !Node(fs, path[i]).subdirsFail && path[i + 1] in Node(fs, path[i]).subdirs)
  }

  /** A subdirectory's findings all appear among those of the subdirectory list. */
  lemma {:induction false} FindSubdirsContains(fs: Fs, subs: seq<Path>, s: Path, pattern: Pattern, visited: set<Path>, f: FileRef)
    requires s in subs && fs.canon(s) !in visited && f in Find(fs, s, pattern, visited)
    ensures f in FindSubdirs(fs, subs, pattern, visited)
    decreases |subs|
  {
    if subs[|subs| - 1] != s {
      var init := subs[..|subs| - 1];
      assert s in init by {
        var k :| 0 <= k < |subs| && subs[k] == s;
        assert init[k] == s;
      }
      FindSubdirsContains(fs, init, s, pattern, visited, f);
    }
  }

  /** Every matching file of a directory reached from the root along a descent that never
      revisits a directory is found, provided that directory's file listing succeeds. */
  lemma {:induction false} FindComplete(fs: Fs, path: seq<Path>, pattern: Pattern, visited: set<Path>, e: FileEntry)
    requires SimplePath(fs, path, visited)
    requires DirExists(fs, path[|path| - 1]) && !Node(fs, path[|path| - 1]).filesFail
    requires e in FilesOf(fs, path[|path| - 1]) && Matches(pattern, e.name)
    ensures FileRef(path[|path| - 1], e.name) in Find(fs, path[0], pattern, visited)
    decreases |path|
  {
    var d := path[|path| - 1];
    if |path| == 1 {
      assert FileRef(d, e.name) in MatchingFiles(fs, d, pattern);
    } else {
      var root, c := path[0], fs.canon(path[0]);
      var rest := path[1..];
      assert SimplePath(fs, rest, visited + {c}) by {
        forall i | 0 <= i < |rest| ensures fs.canon(rest[i]) !in visited + {c} {
          assert rest[i] == path[i + 1];
        }
        forall i, j | 0 <= i < j < |rest| ensures fs.canon(rest[i]) != fs.canon(rest[j]) {
          assert rest[i] == path[i + 1] && rest[j] == path[j + 1];
        }
        forall i | 0 <= i < |rest| - 1
          ensures DirExists(fs, rest[i]) && !Node(fs, rest[i]).subdirsFail && rest[i + 1] in Node(fs, rest[i]).subdirs
        {
          assert rest[i] == path[i + 1] && rest[i + 1] == path[i + 2];
        }
      }
      FindComplete(fs, rest, pattern, visited + {c}, e);
      assert rest[|rest| - 1] == d;
      assert DirExists(fs, root) && !Node(fs, root).subdirsFail && path[1] in Node(fs, root).subdirs;
      FindSubdirsContains(fs, Node(fs, root).subdirs, path[1], pattern, visited + {c}, FileRef(d, e.name));
    }
  }

  /** On two directories that link to each other, with the link back resolving to the
      root's canonical path, the scan stops, listing each one's files once: the link back
      to the root is skipped because the root is on the descent. */
  lemma TwoCycleListsEachOnce(fs: Fs, a: Path, b: Path, pattern: Pattern)
    requires fs.canon(a) == a && fs.canon(b) == b && a != b
    requires fs.tree == map[a := DirNode([b], false, false), b := DirNode([a], false, false)]
    ensures Find(fs, a, pattern, {}) == MatchingFiles(fs, a, pattern) + MatchingFiles(fs, b, pattern)
  {
    AppendEmpty([a]);
    AppendEmpty([b]);
    assert {} + {a} == {a} && {a} + {b} == {a, b};
    assert Node(fs, a) == DirNode([b], false, false) && Node(fs, b) == DirNode([a], false, false);
    assert FindSubdirs(fs, [a], pattern, {a, b}) == [];
    FindUnfold(fs, b, pattern, {a});
    assert FindSubdirs(fs, [b], pattern, {a}) == Find(fs, b, pattern, {a});
    FindUnfold(fs, a, pattern, {});
  }

  /** The external clearing of the event logs (PowerShell, or `wevtutil` when that fails),
      reduced to how it ended. */
  datatype EventLogRun = Cleared | ProcessFailed(alternative: AlternativeRun) | CancelledWhileWaiting
  datatype AlternativeRun = AlternativeCleared | AlternativeFailed | AlternativeCancelled

  /** The sizes `EstimateSizeAsync` adds up when it is not cancelled. */
  function PatternsTotal(fs: Fs, drive: Path, patterns: seq<Pattern>): nat {
    if patterns == [] then 0
    else PatternsTotal(fs, drive, patterns[..|patterns| - 1]) + FileUtils.DefaultEstimate(fs, drive, patterns[|patterns| - 1])
  }

  /** The full memory dump's size and the mini dumps' estimate, under `windir`. */
  function DumpsTotal(fs: Fs, windir: Path): nat {
    DumpSize(fs, windir) + MiniDumpsTotal(fs, windir)
  }

  function DumpSize(fs: Fs, windir: Path): nat {
    var dump := MemoryDump(windir);
    if FileExists(fs, dump) then FileLength(fs, dump).value else 0
  }

  function MiniDumpsTotal(fs: Fs, windir: Path): nat {
    var miniDump := MiniDumpDir(windir);
    if DirExists(fs, miniDump) then FileUtils.DefaultEstimate(fs, miniDump, MiniDumpPattern) else 0
  }

  function EstimateTotal(fs: Fs, drive: Path, windir: Path): nat {
    PatternsTotal(fs, drive, LogPatterns) + DumpsTotal(fs, windir)
  }

  /** Where the loop over a scan's files stops when nothing cancels it: at the first file
      that opens exclusively (it is moved, and the length read then throws) or that denies
      access (the in-use test throws); `|files|` when every file is missing or in use.
      `FirstStopMeans` states that it is the first such index. */
  function FirstStop(fs: Fs, files: seq<FileRef>): (k: nat)
    ensures k <= |files|
  {
    if files == [] then 0
    else if OpenExclusive(fs, files[0]) == Opened || OpenExclusive(fs, files[0]) == Denied then 0
    else FirstStop(fs, files[1..]) + 1
  }

  lemma {:induction false} FirstStopMeans(fs: Fs, files: seq<FileRef>)
    ensures forall j :: 0 <= j < FirstStop(fs, files) ==>
              OpenExclusive(fs, files[j]) == NotFound || OpenExclusive(fs, files[j]) == Shared
    ensures FirstStop(fs, files) < |files| ==>
              OpenExclusive(fs, files[FirstStop(fs, files)]) == Opened || OpenExclusive(fs, files[FirstStop(fs, files)]) == Denied
  {
    if files != [] && OpenExclusive(fs, files[0]) != Opened && OpenExclusive(fs, files[0]) != Denied {
      FirstStopMeans(fs, files[1..]);
      assert forall j :: 1 <= j <= FirstStop(fs, files[1..]) ==> files[j] == files[1..][j - 1];
    }
  }

  /** What the loop over `files` moves when nothing cancels it (`StageMoveMeans` says which
      file that is). */
  function StageMove(fs: Fs, files: seq<FileRef>): (rs: seq<Removal>)
    ensures |rs| <= 1
  {
    var k := FirstStop(fs, files);
    if k < |files| && OpenExclusive(fs, files[k]) == Opened then [Removal(files[k], Lookup(fs, files[k]).value)]
    else []
  }

  /** The loop moves the first file free to open, provided no file before it denied access,
      and nothing otherwise. */
  lemma StageMoveMeans(fs: Fs, files: seq<FileRef>)
    ensures StageMove(fs, files) != [] ==>
              exists k :: 0 <= k < |files| && OpenExclusive(fs, files[k]) == Opened &&
                          StageMove(fs, files) == [Removal(files[k], Lookup(fs, files[k]).value)] &&
                          forall j :: 0 <= j < k ==> OpenExclusive(fs, files[j]) != Opened && OpenExclusive(fs, files[j]) != Denied
    ensures StageMove(fs, files) == [] ==>
              forall k :: 0 <= k < |files| && OpenExclusive(fs, files[k]) == Opened ==>
                exists j :: 0 <= j < k && OpenExclusive(fs, files[j]) == Denied
  {
    FirstStopMeans(fs, files);
  }

  /** What the first `n` pattern stages move when nothing cancels them: each stage scans
      `drive` on the filesystem the earlier stages left. */
  function PatternMoves(fs: Fs, drive: Path, n: nat): seq<Removal>
    requires n <= |LogPatterns|
  {
    if n == 0 then []
    else
      var earlier := PatternMoves(fs, drive, n - 1);
      var now := RemoveAll(fs, earlier);
      earlier + StageMove(now, Find(now, drive, LogPatterns[n - 1], {}))
  }

  /** What the memory-dump stage moves: the dump, when it exists and is free to open. */
  function DumpMove(fs: Fs, windir: Path): seq<Removal> {
    var dump := MemoryDump(windir);
    if OpenExclusive(fs, dump) == Opened then [Removal(dump, Lookup(fs, dump).value)] else []
  }

  /** Whether the mini-dump stage ends in an exception from its file loop: the mini-dump
      directory exists and its scan holds a file that is free or denies access. */
  predicate MiniDumpsStop(fs: Fs, windir: Path) {
    var dir := MiniDumpDir(windir);
    DirExists(fs, dir) && FirstStop(fs, Find(fs, dir, MiniDumpPattern, {})) < |Find(fs, dir, MiniDumpPattern, {})|
  }

  function MiniDumpMove(fs: Fs, windir: Path): seq<Removal> {
    var dir := MiniDumpDir(windir);
    if DirExists(fs, dir) then StageMove(fs, Find(fs, dir, MiniDumpPattern, {})) else []
  }

  /** What the two dump stages move when nothing cancels them: the memory dump if it is
      moved (its stage then throws), a mini dump otherwise. */
  function DumpsMove(fs: Fs, windir: Path): seq<Removal> {
    if DumpMove(fs, windir) != [] then DumpMove(fs, windir) else MiniDumpMove(fs, windir)
  }

  /** Whether the dump stages return normally when nothing cancels them. */
  predicate DumpsFinish(fs: Fs, windir: Path) {
    DumpMove(fs, windir) == [] && !MiniDumpsStop(fs, windir)
  }

  /** What `ClearLogFilesAsync` moves when nothing cancels it: the pattern stages' files,
      then, when `WINDIR` is set, what the dump stages move from the filesystem the
      pattern stages left. */
  function LogMoves(fs: Fs, env: Env): seq<Removal> {
    var patterns := PatternMoves(fs, env.systemDrive, |LogPatterns|);
    if env.windir.None? then patterns else patterns + DumpsMove(RemoveAll(fs, patterns), env.windir.value)
  }

  /** Whether `ClearLogFilesAsync` returns normally when nothing cancels it: `WINDIR` is set,
      the memory dump is not moved, and the mini-dump scan holds no free or denied file. */
  predicate LogStageFinishes(fs: Fs, env: Env) {
    env.windir.Some? && DumpsFinish(RemoveAll(fs, PatternMoves(fs, env.systemDrive, |LogPatterns|)), env.windir.value)
  }

  class SystemLogsCleaner {
    const fileOps: FileOperationsService
    const env: Env
    var spaceFreed: nat
    var filesProcessed: nat

    ghost predicate Valid()
      reads this, fileOps
    {
      fileOps.Valid()
    }

    constructor (fileOps: FileOperationsService, env: Env)
      ensures this.fileOps == fileOps && this.env == env
      ensures spaceFreed == 0 && filesProcessed == 0
    {
      this.fileOps := fileOps;
      this.env := env;
      spaceFreed := 0;
      filesProcessed := 0;
    }

    /** The loop over one scan's files (lines 154-169, and 207-222 for the mini dumps): a
        cancellation check, the in-use test, then the move and the length read. The first
        successful move bumps `FilesProcessed` and then throws from the length read, so at
        most one file is moved and `SpaceFreed` never grows. */
    method MoveFound(files: seq<FileRef>, token: CancellationToken, polls: nat)
      returns (r: Outcome<()>, pollsOut: nat, ghost removed: seq<Removal>)
      requires Valid()
      modifies this, fileOps
      ensures Valid()
      ensures ValidRemovals(old(fileOps.fs), removed) && fileOps.fs == RemoveAll(old(fileOps.fs), removed)
      ensures fileOps.recycleBin == old(fileOps.recycleBin) + removed
      ensures filesProcessed == old(filesProcessed) + |removed| && spaceFreed == old(spaceFreed)
      ensures |removed| <= 1 && forall x :: x in removed ==> x.file in files
      ensures removed != [] ==> r == Threw(FileNotFound(FullName(removed[0].file)))
      ensures removed != [] ==> removed == StageMove(old(fileOps.fs), files)
      ensures r == Done(()) ==> FirstStop(old(fileOps.fs), files) == |files|
      ensures r == Threw(OperationCanceled) ==> CancellationRequested(token, pollsOut)
      ensures !CancellationRequested(token, pollsOut) ==>
                removed == StageMove(old(fileOps.fs), files) && (r.Done? <==> FirstStop(old(fileOps.fs), files) == |files|)
      ensures polls <= pollsOut
    {
      pollsOut, removed := polls, [];
      ghost var fs0 := fileOps.fs;
      FirstStopMeans(fs0, files);
      var i := 0;
      while i < |files|
        invariant 0 <= i <= |files|
        invariant Valid() && polls <= pollsOut
        invariant fileOps.fs == fs0 && fileOps.recycleBin == old(fileOps.recycleBin)
        invariant filesProcessed == old(filesProcessed) && spaceFreed == old(spaceFreed)
        invariant removed == []
        invariant i <= FirstStop(fs0, files)
      {
        if CancellationRequested(token, pollsOut) {
          return Threw(OperationCanceled), pollsOut, [];
        }
        pollsOut := pollsOut + 1;
        var inUse := fileOps.IsFileInUse(files[i]);
        match inUse
        case Threw(e) =>
          assert FirstStop(fs0, files) == i;
          return Threw(e), pollsOut, [];
        case Done(busy) =>
          if !busy {
            var moved, size := MoveThenReadLength(fileOps, files[i]);
            if moved {
              filesProcessed := filesProcessed + 1;
              ghost var x := Removal(files[i], Lookup(fs0, files[i]).value);
              assert FirstStop(fs0, files) == i;
              assert StageMove(fs0, files) == [x];
              RemovalsSnoc(fs0, [], x);
              AppendEmpty([x]);
              removed := [x];
              match size
              case Threw(e) => return Threw(e), pollsOut, removed;
              case Done(_) => assert false;
            }
          }
        assert OpenExclusive(fs0, files[i]) == NotFound || OpenExclusive(fs0, files[i]) == Shared;
        i := i + 1;
      }
      r := Done(());
    }

    /** The pattern stages of `ClearLogFilesAsync` (lines 143-179): for each of the five
        patterns, a cancellation check that escapes, then the stage itself, whose errors
        are caught and logged. */
    method ClearPatternFiles(token: CancellationToken, polls: nat)
      returns (r: Outcome<()>, pollsOut: nat, ghost removed: seq<Removal>)
      requires Valid()
      modifies this, fileOps
      ensures Valid()
      ensures ValidRemovals(old(fileOps.fs), removed) && fileOps.fs == RemoveAll(old(fileOps.fs), removed)
      ensures fileOps.recycleBin == old(fileOps.recycleBin) + removed
      ensures filesProcessed == old(filesProcessed) + |removed| && spaceFreed == old(spaceFreed)
      ensures |removed| <= |LogPatterns|
      ensures AllLogNames(removed)
      ensures r.Threw? ==> r.error == OperationCanceled && CancellationRequested(token, pollsOut)
      ensures !CancellationRequested(token, pollsOut) ==>
                r == Done(()) && removed == PatternMoves(old(fileOps.fs), env.systemDrive, |LogPatterns|)
      ensures polls <= pollsOut
    {
      pollsOut, removed := polls, [];
      ghost var fs0, bin0 := fileOps.fs, fileOps.recycleBin;
      var k := 0;
      while k < |LogPatterns|
        invariant 0 <= k <= |LogPatterns|
        invariant Valid() && polls <= pollsOut
        invariant ValidRemovals(fs0, removed) && fileOps.fs == RemoveAll(fs0, removed)
        invariant fileOps.recycleBin == bin0 + removed
        invariant filesProcessed == old(filesProcessed) + |removed| && spaceFreed == old(spaceFreed)
        invariant |removed| <= k
        invariant AllLogNames(removed)
        invariant !CancellationRequested(token, pollsOut) ==> removed == PatternMoves(fs0, env.systemDrive, k)
      {
        r, pollsOut, removed := PatternStage(k, token, pollsOut, fs0, bin0, removed);
        if r.Threw? {
          return;
        }
        k := k + 1;
      }
      r := Done(());
    }

    /** One turn of the pattern loop (lines 145-178): the cancellation check that escapes,
        then the stage, extending the removals `earlier` of the turns before. */
    method PatternStage(k: nat, token: CancellationToken, polls: nat, ghost fs0: Fs, ghost bin0: seq<Removal>, ghost earlier: seq<Removal>)
      returns (r: Outcome<()>, pollsOut: nat, ghost removed: seq<Removal>)
      requires Valid() && k < |LogPatterns|
      requires ValidRemovals(fs0, earlier) && fileOps.fs == RemoveAll(fs0, earlier)
      requires fileOps.recycleBin == bin0 + earlier && AllLogNames(earlier)
      requires !CancellationRequested(token, polls) ==> earlier == PatternMoves(fs0, env.systemDrive, k)
      modifies this, fileOps
      ensures Valid()
      ensures ValidRemovals(fs0, removed) && fileOps.fs == RemoveAll(fs0, removed)
      ensures fileOps.recycleBin == bin0 + removed && AllLogNames(removed)
      ensures |earlier| <= |removed| <= |earlier| + 1
      ensures filesProcessed == old(filesProcessed) + (|removed| - |earlier|) && spaceFreed == old(spaceFreed)
      ensures r.Threw? <==> CancellationRequested(token, polls)
      ensures r.Threw? ==> r == Threw(OperationCanceled) && removed == earlier
      ensures !CancellationRequested(token, pollsOut) ==>
                r == Done(()) && removed == PatternMoves(fs0, env.systemDrive, k + 1)
      ensures polls <= pollsOut
    {
      if CancellationRequested(token, polls) {
        return Threw(OperationCanceled), polls, earlier;
      }
      r := Done(());
      ghost var more;
      pollsOut, more := ClearPattern(LogPatterns[k], token, polls + 1);
      OneLogName(more, k);
      if !CancellationRequested(token, pollsOut) {
        if CancellationRequested(token, polls) {
          RequestIsSticky(token, polls, pollsOut);
        }
      }
      AllLogNamesAppend(earlier, more);
      RemovalsAppend(fs0, earlier, more);
      ConcatAssoc(bin0, earlier, more);
      removed := earlier + more;
    }

    /** One pattern stage (lines 147-170): a scan of the system drive with a fresh visited
        set, then the moves; whatever they throw is caught by the caller's handler. */
    method ClearPattern(pattern: Pattern, token: CancellationToken, polls: nat)
      returns (pollsOut: nat, ghost removed: seq<Removal>)
      requires Valid()
      modifies this, fileOps
      ensures Valid()
      ensures ValidRemovals(old(fileOps.fs), removed) && fileOps.fs == RemoveAll(old(fileOps.fs), removed)
      ensures fileOps.recycleBin == old(fileOps.recycleBin) + removed
      ensures filesProcessed == old(filesProcessed) + |removed| && spaceFreed == old(spaceFreed)
      ensures |removed| <= 1 && forall x :: x in removed ==> Matches(pattern, x.file.name)
      ensures !CancellationRequested(token, pollsOut) ==>
                removed == StageMove(old(fileOps.fs), Find(old(fileOps.fs), env.systemDrive, pattern, {}))
      ensures polls <= pollsOut
    {
      ghost var scanned := fileOps.fs;
      var files, _ := FindFilesSafe(fileOps.fs, env.systemDrive, pattern, {});
      var stage;
      stage, pollsOut, removed := MoveFound(files, token, polls);
      forall x | x in removed ensures Matches(pattern, x.file.name) {
        FindSound(scanned, env.systemDrive, pattern, {}, x.file);
      }
    }

    /** The memory-dump stage (lines 182-197), outside any try: an unset `WINDIR` makes
        `Path.Combine` throw, and a successful move throws from the length read. */
    method ClearMemoryDump(token: CancellationToken, polls: nat)
      returns (r: Outcome<()>, pollsOut: nat, ghost removed: seq<Removal>)
      requires Valid()
      modifies this, fileOps
      ensures Valid()
      ensures ValidRemovals(old(fileOps.fs), removed) && fileOps.fs == RemoveAll(old(fileOps.fs), removed)
      ensures fileOps.recycleBin == old(fileOps.recycleBin) + removed
      ensures filesProcessed == old(filesProcessed) + |removed| && spaceFreed == old(spaceFreed)
      ensures env.windir.None? ==> r == Threw(ArgumentNull("path1")) && removed == []
      ensures env.windir.Some? ==> removed == [] || removed == [Removal(MemoryDump(env.windir.value), removed[0].entry)]
      ensures removed != [] ==> r.Threw? && r.error.FileNotFound?
      ensures r == Threw(OperationCanceled) ==> CancellationRequested(token, pollsOut)
      ensures !CancellationRequested(token, pollsOut) && env.windir.Some? ==>
                removed == DumpMove(old(fileOps.fs), env.windir.value) && (r.Done? <==> removed == [])
      ensures polls <= pollsOut
    {
      pollsOut, removed := polls, [];
      if env.windir.None? {
        return Threw(ArgumentNull("path1")), pollsOut, removed;
      }
      var dump := MemoryDump(env.windir.value);
      if FileExists(fileOps.fs, dump) {
        if CancellationRequested(token, pollsOut) {
          return Threw(OperationCanceled), pollsOut, removed;
        }
        pollsOut := pollsOut + 1;
        ghost var before := fileOps.fs;
        var moved, size := MoveThenReadLength(fileOps, dump);
        if moved {
          filesProcessed := filesProcessed + 1;
          ghost var x := Removal(dump, Lookup(before, dump).value);
          RemovalsSnoc(before, [], x);
          AppendEmpty([x]);
          removed := [x];
          match size
          case Threw(e) => return Threw(e), pollsOut, removed;
          case Done(_) => assert false;
        }
      }
      r := Done(());
    }

    /** The mini-dump stage (lines 200-223), outside any try: if the directory exists, a
        cancellation check, a scan for `*.dmp` with a fresh visited set, and the moves. */
    method ClearMiniDumps(windir: Path, token: CancellationToken, polls: nat)
      returns (r: Outcome<()>, pollsOut: nat, ghost removed: seq<Removal>)
      requires Valid()
      modifies this, fileOps
      ensures Valid()
      ensures ValidRemovals(old(fileOps.fs), removed) && fileOps.fs == RemoveAll(old(fileOps.fs), removed)
      ensures fileOps.recycleBin == old(fileOps.recycleBin) + removed
      ensures filesProcessed == old(filesProcessed) + |removed| && spaceFreed == old(spaceFreed)
      ensures |removed| <= 1 && forall x :: x in removed ==> Matches(MiniDumpPattern, x.file.name)
      ensures r == Threw(OperationCanceled) ==> CancellationRequested(token, pollsOut)
      ensures !CancellationRequested(token, pollsOut) ==>
                removed == MiniDumpMove(old(fileOps.fs), windir) && (r.Done? <==> !MiniDumpsStop(old(fileOps.fs), windir))
      ensures polls <= pollsOut
    {
      pollsOut, removed := polls, [];
      var miniDump := MiniDumpDir(windir);
      if DirExists(fileOps.fs, miniDump) {
        if CancellationRequested(token, pollsOut) {
          return Threw(OperationCanceled), pollsOut, removed;
        }
        pollsOut := pollsOut + 1;
        ghost var scanned := fileOps.fs;
        var files, _ := FindFilesSafe(fileOps.fs, miniDump, MiniDumpPattern, {});
        r, pollsOut, removed := MoveFound(files, token, pollsOut);
        forall x | x in removed ensures Matches(MiniDumpPattern, x.file.name) {
          FindSound(scanned, miniDump, MiniDumpPattern, {}, x.file);
        }
      } else {
        r := Done(());
      }
    }

    /** `ClearLogFilesAsync`: the pattern stages, whose errors are caught, then the memory
        dump and the mini dumps, whose errors escape. Every removed file has a log-like
        name, and since each successful move ends its stage, at most one file per stage is
        removed. */
    method ClearLogFiles(token: CancellationToken, polls: nat)
      returns (r: Outcome<()>, pollsOut: nat, ghost removed: seq<Removal>)
      requires Valid()
      modifies this, fileOps
      ensures Valid()
      ensures ValidRemovals(old(fileOps.fs), removed) && fileOps.fs == RemoveAll(old(fileOps.fs), removed)
      ensures fileOps.recycleBin == old(fileOps.recycleBin) + removed
      ensures filesProcessed == old(filesProcessed) + |removed| && spaceFreed == old(spaceFreed)
      ensures |removed| <= |LogPatterns| + 2
      ensures AllLogNames(removed)
      ensures env.windir.None? ==> r.Threw?
      ensures r == Threw(OperationCanceled) ==> CancellationRequested(token, pollsOut)
      ensures !CancellationRequested(token, pollsOut) ==>
                removed == LogMoves(old(fileOps.fs), env) && (r.Done? <==> LogStageFinishes(old(fileOps.fs), env))
      ensures polls <= pollsOut
    {
      ghost var fs0, bin0 := fileOps.fs, fileOps.recycleBin;
      ghost var more;
      r, pollsOut, removed := ClearPatternFiles(token, polls);
      if r.Threw? {
        return;
      }
      ghost var middle := pollsOut;
      r, pollsOut, more := ClearDumps(token, pollsOut);
      AllLogNamesMeans(more);
      AllLogNamesAppend(removed, more);
      RemovalsAppend(fs0, removed, more);
      ConcatAssoc(bin0, removed, more);
      if !CancellationRequested(token, pollsOut) && CancellationRequested(token, middle) {
        RequestIsSticky(token, middle, pollsOut);
      }
      removed := removed + more;
    }

    /** The dump stages of `ClearLogFilesAsync` (lines 181-223), both outside any try: the
        memory dump, then, unless that stage threw, the mini dumps. */
    method ClearDumps(token: CancellationToken, polls: nat)
      returns (r: Outcome<()>, pollsOut: nat, ghost removed: seq<Removal>)
      requires Valid()
      modifies this, fileOps
      ensures Valid()
      ensures ValidRemovals(old(fileOps.fs), removed) && fileOps.fs == RemoveAll(old(fileOps.fs), removed)
      ensures fileOps.recycleBin == old(fileOps.recycleBin) + removed
      ensures filesProcessed == old(filesProcessed) + |removed| && spaceFreed == old(spaceFreed)
      ensures |removed| <= 1 && forall x :: x in removed ==> IsLogName(x.file.name)
      ensures env.windir.None? ==> r == Threw(ArgumentNull("path1")) && removed == []
      ensures r == Threw(OperationCanceled) ==> CancellationRequested(token, pollsOut)
      ensures !CancellationRequested(token, pollsOut) && env.windir.Some? ==>
                removed == DumpsMove(old(fileOps.fs), env.windir.value) && (r.Done? <==> DumpsFinish(old(fileOps.fs), env.windir.value))
      ensures polls <= pollsOut
    {
      ghost var fs0 := fileOps.fs;
      r, pollsOut, removed := ClearMemoryDump(token, polls);
      if r.Threw? {
        return;
      }
      ghost var middle := pollsOut;
      r, pollsOut, removed := ClearMiniDumps(env.windir.value, token, pollsOut);
      forall x | x in removed ensures IsLogName(x.file.name) {
      }
      if !CancellationRequested(token, pollsOut) && CancellationRequested(token, middle) {
        RequestIsSticky(token, middle, pollsOut);
      }
    }

    /** `ClearEventLogsAsync` with its fallback: every way the external processes can end,
        cancellation included, is caught, so it always returns normally. */
    static method ClearEventLogs(run: EventLogRun) returns (r: Outcome<()>)
      ensures r == Done(())
    {
      match run
      case Cleared => r := Done(());
      case CancelledWhileWaiting => r := Done(());
      case ProcessFailed(alternative) =>
        match alternative
        case AlternativeCleared => r := Done(());
        case AlternativeFailed => r := Done(());
        case AlternativeCancelled => r := Done(());
    }

    /** `CleanAsync`: counters reset, then the log-file stage and the event-log stage. A
        cancelled log-file stage returns `false` at once; another error there makes the
        result `false` but the event logs are still cleared. Since clearing the event logs
        never throws, the result is `true` exactly when the log-file stage finished: when
        nothing cancels the run, exactly when `WINDIR` is set, the memory dump is not free
        to move, and the mini-dump scan finds no file that is free or denies access. */
    method Clean(token: CancellationToken, polls: nat, eventLogs: EventLogRun)
      returns (ok: bool, pollsOut: nat, ghost logStage: Outcome<()>, ghost removed: seq<Removal>)
      requires Valid()
      modifies this, fileOps
      ensures Valid()
      ensures ValidRemovals(old(fileOps.fs), removed) && fileOps.fs == RemoveAll(old(fileOps.fs), removed)
      ensures fileOps.recycleBin == old(fileOps.recycleBin) + removed
      ensures filesProcessed == |removed| && spaceFreed == 0
      ensures forall x :: x in removed ==> IsLogName(x.file.name)
      ensures ok <==> logStage.Done?
      ensures env.windir.None? ==> !ok
      ensures !CancellationRequested(token, pollsOut) ==>
                removed == LogMoves(old(fileOps.fs), env) && (ok <==> LogStageFinishes(old(fileOps.fs), env))
      ensures polls <= pollsOut
    {
      spaceFreed := 0;
      filesProcessed := 0;
      var allSuccess := true;
      var stage;
      stage, pollsOut, removed := ClearLogFiles(token, polls);
      AllLogNamesMeans(removed);
      logStage := stage;
      if stage == Threw(OperationCanceled) {
        return false, pollsOut, logStage, removed;
      } else if stage.Threw? {
        allSuccess := false;
      }
      var events := ClearEventLogs(eventLogs);
      if events == Threw(OperationCanceled) {
        return false, pollsOut, logStage, removed;
      } else if events.Threw? {
        allSuccess := false;
      }
      ok := allSuccess;
    }

    /** `EstimateSizeAsync`: the five pattern estimates from the system drive, the memory
        dump's size, and the mini dumps' estimate (whose errors, cancellation included, are
        caught). An unset `WINDIR` makes `Path.Combine` throw before the dumps are looked
        at. Without cancellation the estimate is `EstimateTotal`; it never exceeds it. */
    method EstimateSize(token: CancellationToken, polls: nat) returns (r: Outcome<nat>, pollsOut: nat)
      ensures polls <= pollsOut
      ensures r.Done? ==> env.windir.Some? && r.value <= EstimateTotal(fileOps.fs, env.systemDrive, env.windir.value)
      ensures r.Threw? ==> r.error == OperationCanceled || r.error == ArgumentNull("path1")
      ensures !CancellationRequested(token, pollsOut) ==>
                r == if env.windir.Some? then Done(EstimateTotal(fileOps.fs, env.systemDrive, env.windir.value))
                     else Threw(ArgumentNull("path1"))
    {
      var fs := fileOps.fs;
      var patterns;
      patterns, pollsOut := EstimatePatterns(fs, env.systemDrive, LogPatterns, token, polls);
      if patterns.Threw? {
        return patterns, pollsOut;
      }
      if env.windir.None? {
        return Threw(ArgumentNull("path1")), pollsOut;
      }
      var dumps;
      dumps, pollsOut := EstimateDumps(fs, env.windir.value, token, pollsOut);
      if dumps.Threw? {
        return dumps, pollsOut;
      }
      r := Done(patterns.value + dumps.value);
    }
  }

  /** The dump part of `EstimateSizeAsync` (lines 102-132): the memory dump's size if it
      exists, then, if the mini-dump directory exists, a cancellation check that escapes
      and the estimate with its errors caught. */
  method EstimateDumps(fs: Fs, windir: Path, token: CancellationToken, polls: nat)
    returns (r: Outcome<nat>, pollsOut: nat)
    ensures polls <= pollsOut
    ensures r.Threw? ==> r.error == OperationCanceled && CancellationRequested(token, pollsOut)
    ensures r.Done? ==> r.value <= DumpsTotal(fs, windir)
    ensures !CancellationRequested(token, pollsOut) ==> r == Done(DumpsTotal(fs, windir))
  {
    var total: nat := 0;
    var dump := MemoryDump(windir);
    if FileExists(fs, dump) {
      match FileLength(fs, dump) {
        case Some(n) => total := n;
        case None =>
      }
    }
    var mini;
    mini, pollsOut := EstimateMiniDumps(fs, windir, token, polls);
    if mini.Threw? {
      return Threw(mini.error), pollsOut;
    }
    r := Done(total + mini.value);
  }

  /** The mini-dump part of `EstimateSizeAsync` (lines 118-132). */
  method EstimateMiniDumps(fs: Fs, windir: Path, token: CancellationToken, polls: nat)
    returns (r: Outcome<nat>, pollsOut: nat)
    ensures polls <= pollsOut
    ensures r.Threw? ==> r.error == OperationCanceled && CancellationRequested(token, pollsOut)
    ensures r.Done? ==> r.value <= MiniDumpsTotal(fs, windir)
    ensures r.Done? ==> r.value == 0 || r.value == MiniDumpsTotal(fs, windir)
    ensures !CancellationRequested(token, pollsOut) ==> r == Done(MiniDumpsTotal(fs, windir))
  {
    pollsOut := polls;
    var miniDump := MiniDumpDir(windir);
    if !DirExists(fs, miniDump) {
      return Done(0), pollsOut;
    }
    if CancellationRequested(token, pollsOut) {
      return Threw(OperationCanceled), pollsOut;
    }
    pollsOut := pollsOut + 1;
    var n;
    n, pollsOut := FileUtils.EstimateSizeOrZero(fs, miniDump, MiniDumpPattern, token, pollsOut);
    r := Done(n);
  }

  /** The pattern loop of `EstimateSizeAsync` (lines 83-100): per pattern a cancellation
      check that escapes, then the estimate from `drive` with every error caught. */
  method EstimatePatterns(fs: Fs, drive: Path, patterns: seq<Pattern>, token: CancellationToken, polls: nat)
    returns (r: Outcome<nat>, pollsOut: nat)
    ensures polls <= pollsOut
    ensures r.Threw? ==> r.error == OperationCanceled && CancellationRequested(token, pollsOut)
    ensures r.Done? ==> r.value <= PatternsTotal(fs, drive, patterns)
    ensures !CancellationRequested(token, pollsOut) ==> r == Done(PatternsTotal(fs, drive, patterns))
  {
    pollsOut := polls;
    var total: nat := 0;
    var k := 0;
    while k < |patterns|
      invariant 0 <= k <= |patterns|
      invariant polls <= pollsOut
      invariant total <= PatternsTotal(fs, drive, patterns[..k])
      invariant !CancellationRequested(token, pollsOut) ==> total == PatternsTotal(fs, drive, patterns[..k])
    {
      if CancellationRequested(token, pollsOut) {
        return Threw(OperationCanceled), pollsOut;
      }
      pollsOut := pollsOut + 1;
      PrefixStep(patterns, k);
      var n;
      n, pollsOut := FileUtils.EstimateSizeOrZero(fs, drive, patterns[k], token, pollsOut);
      total := total + n;
      k := k + 1;
    }
    PrefixAll(patterns, k);
    r := Done(total);
  }
}
