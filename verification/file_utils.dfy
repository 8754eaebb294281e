/** `FileUtils`: the guarded reclaim helper, the depth-bounded enumeration and the size
    estimate built on it. The enumeration has no visited set; only the depth bound makes
    it stop. The producer/consumer channel is modelled as the producer running to its end
    and the consumer then reading what was produced. */
module FileUtils {
  import opened Common
  import opened FileSystem
  import opened FileOperations

  /** The default `maxDepth` of `EnumerateFilesAsync` and `EstimateSizeAsync`. */
  const DefaultMaxDepth := 10

  /** `SafeMoveToRecycleBinAsync`: a missing or in-use file is left alone and gives `false`,
      otherwise the result is that of the move; nothing escapes. */
  method SafeMoveToRecycleBin(f: FileRef, fileOps: FileOperationsService) returns (ok: bool)
    requires fileOps.Valid()
    modifies fileOps
    ensures fileOps.Valid()
    ensures ok <==> OpenExclusive(old(fileOps.fs), f) == Opened
    ensures ok ==> Removable(old(fileOps.fs), Removal(f, Lookup(old(fileOps.fs), f).value))
    ensures ok ==> fileOps.fs == RemoveFile(old(fileOps.fs), f) &&
                   fileOps.recycleBin == old(fileOps.recycleBin) + [Removal(f, Lookup(old(fileOps.fs), f).value)]
    ensures !ok ==> fileOps.fs == old(fileOps.fs) && fileOps.recycleBin == old(fileOps.recycleBin)
  {
    if !FileExists(fileOps.fs, f) {
      return false;
    }
    var inUse := fileOps.IsFileInUse(f);
    match inUse
    case Threw(_) => ok := false;
    case Done(b) =>
      if b {
        ok := false;
      } else {
        ok := fileOps.MoveToRecycleBin(f);
      }
  }

  /** What is left of the depth budget at `depth`: the number of levels still allowed. */
  function Budget(maxDepth: int, depth: int): nat {
    if depth <= maxDepth then maxDepth - depth + 1 else 0
  }

  /** The files `EnumerateFilesInternalAsync` emits from `p` at `depth` when nothing is
      cancelled: nothing below the depth bound or from a directory whose file listing
      fails; otherwise the directory's own matching files, then each subdirectory's files
      in listing order, unless listing the subdirectories fails. */
  function Enumerate(fs: Fs, p: Path, pattern: Pattern, maxDepth: int, depth: int): seq<FileRef>
    decreases Budget(maxDepth, depth), 0
  {
    if depth > maxDepth || !DirExists(fs, p) || Node(fs, p).filesFail then []
    else MatchingFiles(fs, p, pattern) +
         (if Node(fs, p).subdirsFail then []
          else EnumerateSubdirs(fs, Node(fs, p).subdirs, pattern, maxDepth, depth + 1))
  }

  function EnumerateSubdirs(fs: Fs, subs: seq<Path>, pattern: Pattern, maxDepth: int, depth: int): seq<FileRef>
    decreases Budget(maxDepth, depth), |subs|
  {
    if subs == [] then []
    else EnumerateSubdirs(fs, subs[..|subs| - 1], pattern, maxDepth, depth) +
         Enumerate(fs, subs[|subs| - 1], pattern, maxDepth, depth)
  }

  lemma EnumerateSubdirsSnoc(fs: Fs, subs: seq<Path>, j: nat, pattern: Pattern, maxDepth: int, depth: int)
    requires j < |subs|
    ensures EnumerateSubdirs(fs, subs[..j + 1], pattern, maxDepth, depth) ==
            EnumerateSubdirs(fs, subs[..j], pattern, maxDepth, depth) + Enumerate(fs, subs[j], pattern, maxDepth, depth)
  {
    PrefixStep(subs, j);
  }

  /** `EnumerateFilesInternalAsync`. A cancellation check that fires at the top or in the
      file loop propagates (`cancelled`); one that fires in the subdirectory loop, or a
      child's, is swallowed by the catch-all around that loop. Either way the emitted files
      are a prefix of `Enumerate`, and all of it when cancellation was never requested. */
  method EnumerateFilesInternal(fs: Fs, p: Path, pattern: Pattern, maxDepth: int, depth: int,
                                token: CancellationToken, polls: nat)
    returns (emitted: seq<FileRef>, pollsOut: nat, cancelled: bool)
    ensures polls <= pollsOut
    ensures emitted <= Enumerate(fs, p, pattern, maxDepth, depth)
    ensures cancelled ==> CancellationRequested(token, pollsOut)
    ensures !CancellationRequested(token, pollsOut) ==> !cancelled && emitted == Enumerate(fs, p, pattern, maxDepth, depth)
    decreases Budget(maxDepth, depth), 0
  {
    emitted, pollsOut, cancelled := [], polls, false;
    if depth > maxDepth {
      return;
    }
    if CancellationRequested(token, pollsOut) {
      cancelled := true;
      return;
    }
    pollsOut := pollsOut + 1;
    if !DirExists(fs, p) || Node(fs, p).filesFail {
      return;
    }
    var files := MatchingFiles(fs, p, pattern);
    ghost var whole := Enumerate(fs, p, pattern, maxDepth, depth);
    ghost var below := if Node(fs, p).subdirsFail then [] else EnumerateSubdirs(fs, Node(fs, p).subdirs, pattern, maxDepth, depth + 1);
    assert whole == files + below;
    PrefixOfAppend(files, below);
    emitted, pollsOut, cancelled := EmitFiles(files, token, pollsOut);
    if cancelled || Node(fs, p).subdirsFail {
      PrefixTrans(emitted, files, whole);
      return;
    }
    var more;
    more, pollsOut := EnumerateSubdirsInternal(fs, Node(fs, p).subdirs, pattern, maxDepth, depth + 1, token, pollsOut);
    PrefixAppendMono(files, more, below);
    emitted := emitted + more;
  }

  /** The file loop of `EnumerateFilesInternalAsync` (lines 115-119): a cancellation check
      per file that propagates, then the file is written to the channel. */
  method EmitFiles(files: seq<FileRef>, token: CancellationToken, polls: nat)
    returns (emitted: seq<FileRef>, pollsOut: nat, cancelled: bool)
    ensures polls <= pollsOut
    ensures emitted <= files
    ensures cancelled ==> CancellationRequested(token, pollsOut)
    ensures !cancelled ==> emitted == files
  {
    emitted, pollsOut, cancelled := [], polls, false;
    var i := 0;
    while i < |files|
      invariant 0 <= i <= |files|
      invariant polls <= pollsOut
      invariant emitted == files[..i]
    {
      if CancellationRequested(token, pollsOut) {
        cancelled := true;
        SlicePrefix(files, i);
        return;
      }
      pollsOut := pollsOut + 1;
      PrefixStep(files, i);
      emitted := emitted + [files[i]];
      i := i + 1;
    }
    PrefixAll(files, i);
  }

  /** The subdirectory loop of `EnumerateFilesInternalAsync` (lines 121-139), run for
      children at `depth`: a cancellation check before each child, which like every error
      inside the loop ends the loop quietly. */
  method EnumerateSubdirsInternal(fs: Fs, subs: seq<Path>, pattern: Pattern, maxDepth: int, depth: int,
                                  token: CancellationToken, polls: nat)
    returns (emitted: seq<FileRef>, pollsOut: nat)
    ensures polls <= pollsOut
    ensures emitted <= EnumerateSubdirs(fs, subs, pattern, maxDepth, depth)
    ensures !CancellationRequested(token, pollsOut) ==> emitted == EnumerateSubdirs(fs, subs, pattern, maxDepth, depth)
    decreases Budget(maxDepth, depth), 1
  {
    emitted, pollsOut := [], polls;
    ghost var whole := EnumerateSubdirs(fs, subs, pattern, maxDepth, depth);
    AppendEmpty(subs);
    PrefixOfAppend([], whole);
    var j := 0;
    while j < |subs|
      invariant 0 <= j <= |subs|
      invariant polls <= pollsOut
      invariant emitted <= whole
      invariant emitted == EnumerateSubdirs(fs, subs[..j], pattern, maxDepth, depth) ||
                CancellationRequested(token, pollsOut)
    {
      if CancellationRequested(token, pollsOut) {
        return;
      }
      pollsOut := pollsOut + 1;
      var more, pollsNext, childCancelled :=
        EnumerateFilesInternal(fs, subs[j], pattern, maxDepth, depth, token, pollsOut);
      SubdirStep(fs, subs, j, pattern, maxDepth, depth, more);
      pollsOut := pollsNext;
      emitted := emitted + more;
      j := j + 1;
      if childCancelled {
        return;
      }
    }
    PrefixAll(subs, j);
  }

  /** The bookkeeping of one round of the subdirectory loop: appending what the child
      emitted keeps the output a prefix of the whole enumeration, and appending all of it
      completes the enumeration of one more subdirectory. */
  lemma SubdirStep(fs: Fs, subs: seq<Path>, j: nat, pattern: Pattern, maxDepth: int, depth: int, more: seq<FileRef>)
    requires j < |subs|
    requires more <= Enumerate(fs, subs[j], pattern, maxDepth, depth)
    ensures EnumerateSubdirs(fs, subs[..j], pattern, maxDepth, depth) + more <= EnumerateSubdirs(fs, subs, pattern, maxDepth, depth)
    ensures more == Enumerate(fs, subs[j], pattern, maxDepth, depth) ==>
              EnumerateSubdirs(fs, subs[..j], pattern, maxDepth, depth) + more ==
              EnumerateSubdirs(fs, subs[..j + 1], pattern, maxDepth, depth)
  {
    var done := EnumerateSubdirs(fs, subs[..j], pattern, maxDepth, depth);
    var child := Enumerate(fs, subs[j], pattern, maxDepth, depth);
    var next := EnumerateSubdirs(fs, subs[..j + 1], pattern, maxDepth, depth);
    var all := EnumerateSubdirs(fs, subs, pattern, maxDepth, depth);
    EnumerateSubdirsSnoc(fs, subs, j, pattern, maxDepth, depth);
    EnumerateSubdirsPrefix(fs, subs, j + 1, pattern, maxDepth, depth);
    PrefixAppendMono(done, more, child);
    PrefixTrans(done + more, next, all);
  }

  /** Enumerating a prefix of the subdirectory list gives a prefix of the enumeration. */
  lemma {:induction false} EnumerateSubdirsPrefix(fs: Fs, subs: seq<Path>, j: nat, pattern: Pattern, maxDepth: int, depth: int)
    requires j <= |subs|
    ensures EnumerateSubdirs(fs, subs[..j], pattern, maxDepth, depth) <= EnumerateSubdirs(fs, subs, pattern, maxDepth, depth)
    decreases |subs| - j
  {
    if j == |subs| {
      PrefixAll(subs, j);
    } else {
      EnumerateSubdirsSnoc(fs, subs, j, pattern, maxDepth, depth);
      EnumerateSubdirsPrefix(fs, subs, j + 1, pattern, maxDepth, depth);
      var a := EnumerateSubdirs(fs, subs[..j], pattern, maxDepth, depth);
      var b := EnumerateSubdirs(fs, subs[..j + 1], pattern, maxDepth, depth);
      var c := EnumerateSubdirs(fs, subs, pattern, maxDepth, depth);
      PrefixOfAppend(a, Enumerate(fs, subs[j], pattern, maxDepth, depth));
      PrefixTrans(a, b, c);
    }
  }

  /** The summed sizes of `files`, skipping any whose size cannot be read. */
  function TotalSize(fs: Fs, files: seq<FileRef>): nat {
    if files == [] then 0
    else TotalSize(fs, files[..|files| - 1]) +
         match FileLength(fs, files[|files| - 1]) { case None => 0 case Some(n) => n }
  }

  lemma {:induction false} TotalSizeAppend(fs: Fs, a: seq<FileRef>, b: seq<FileRef>)
    ensures TotalSize(fs, a + b) == TotalSize(fs, a) + TotalSize(fs, b)
  {
    if b == [] {
      AppendEmpty(a);
    } else {
      TotalSizeAppend(fs, a, b[..|b| - 1]);
      AppendFront(a, b);
    }
  }

  /** The consumer loop of `EstimateSizeAsync` (lines 157-170): a cancellation check that
      escapes per file, then the file's length, skipped when it cannot be read. */
  method SumLengths(fs: Fs, files: seq<FileRef>, token: CancellationToken, polls: nat)
    returns (r: Outcome<nat>, pollsOut: nat)
    ensures polls <= pollsOut
    ensures r.Threw? ==> r.error == OperationCanceled && CancellationRequested(token, pollsOut)
    ensures r.Done? ==> r.value == TotalSize(fs, files)
    ensures !CancellationRequested(token, pollsOut) ==> r.Done?
  {
    pollsOut := polls;
    var total := 0;
    var i := 0;
    while i < |files|
      invariant 0 <= i <= |files|
      invariant polls <= pollsOut
      invariant total == TotalSize(fs, files[..i])
    {
      if CancellationRequested(token, pollsOut) {
        return Threw(OperationCanceled), pollsOut;
      }
      pollsOut := pollsOut + 1;
      PrefixStep(files, i);
      match FileLength(fs, files[i]) {
        case None =>
        case Some(n) => total := total + n;
      }
      i := i + 1;
    }
    PrefixAll(files, i);
    r := Done(total);
  }

  /** `EstimateSizeAsync`: the summed sizes of what the enumeration produces. A cancellation
      seen by the consumer, by the producer's start, or propagated out of the producer is
      rethrown, and so is one seen when the reader of line 81 asks for the next file after
      the last. So an estimate that is returned is always the total of `Enumerate`. */
  method EstimateSize(fs: Fs, root: Path, pattern: Pattern, maxDepth: int, token: CancellationToken, polls: nat)
    returns (r: Outcome<nat>, pollsOut: nat)
    ensures polls <= pollsOut
    ensures r.Threw? ==> r.error == OperationCanceled && CancellationRequested(token, pollsOut)
    ensures r.Done? ==> r.value == TotalSize(fs, Enumerate(fs, root, pattern, maxDepth, 0))
    ensures !CancellationRequested(token, pollsOut) ==> r.Done?
  {
    pollsOut := polls;
    if CancellationRequested(token, pollsOut) {
      return Threw(OperationCanceled), pollsOut;
    }
    pollsOut := pollsOut + 1;
    ghost var whole := Enumerate(fs, root, pattern, maxDepth, 0);
    var emitted, pollsNext, producerCancelled := EnumerateFilesInternal(fs, root, pattern, maxDepth, 0, token, pollsOut);
    r, pollsOut := SumLengths(fs, emitted, token, pollsNext);
    if r.Threw? {
      return;
    }
    if producerCancelled {
      return Threw(OperationCanceled), pollsOut;
    }
    if CancellationRequested(token, pollsOut) {
      return Threw(OperationCanceled), pollsOut;
    }
    pollsOut := pollsOut + 1;
  }

  /** What `EstimateSizeAsync` returns at the default depth when nothing is cancelled. */
  function DefaultEstimate(fs: Fs, root: Path, pattern: Pattern): nat {
    TotalSize(fs, Enumerate(fs, root, pattern, DefaultMaxDepth, 0))
  }

  /** `EstimateSizeAsync` at the default depth inside a catch-all, as the cleaners call it:
      an error, cancellation included, adds nothing; otherwise the estimate is exact. */
  method EstimateSizeOrZero(fs: Fs, root: Path, pattern: Pattern, token: CancellationToken, polls: nat)
    returns (n: nat, pollsOut: nat)
    ensures polls <= pollsOut
    ensures n <= DefaultEstimate(fs, root, pattern)
    ensures n == 0 || n == DefaultEstimate(fs, root, pattern)
    ensures !CancellationRequested(token, pollsOut) ==> n == DefaultEstimate(fs, root, pattern)
  {
    var size;
    size, pollsOut := EstimateSize(fs, root, pattern, DefaultMaxDepth, token, polls);
    n := if size.Done? then size.value else 0;
  }

  /** `dir` can be reached from `from` in at most `k` steps through subdirectory links that
      the enumeration follows (directories whose file and subdirectory listings succeed). */
  ghost predicate ReachableWithin(fs: Fs, from: Path, dir: Path, k: nat)
    decreases k
  {
    from == dir ||
    (k > 0 && DirExists(fs, from) && !Node(fs, from).filesFail && !Node(fs, from).subdirsFail &&
     exists s :: s in Node(fs, from).subdirs && ReachableWithin(fs, s, dir, k - 1))
  }

  /** Every emitted file exists, matches the pattern and lies in a directory at most
      `maxDepth - depth` links below the starting directory: nothing deeper than the depth
      bound is ever emitted. */
  lemma {:induction false} EnumerateSound(fs: Fs, p: Path, pattern: Pattern, maxDepth: int, depth: int, f: FileRef)
    requires f in Enumerate(fs, p, pattern, maxDepth, depth)
    ensures depth <= maxDepth
    ensures ReachableWithin(fs, p, f.dir, maxDepth - depth)
    ensures Matches(pattern, f.name) && FileExists(fs, f)
    decreases Budget(maxDepth, depth), 0
  {
    var files := MatchingFiles(fs, p, pattern);
    if f !in files {
      var subs := Node(fs, p).subdirs;
      var s := EnumerateSubdirsSound(fs, subs, pattern, maxDepth, depth + 1, f);
    }
  }

  lemma {:induction false} EnumerateSubdirsSound(fs: Fs, subs: seq<Path>, pattern: Pattern, maxDepth: int, depth: int, f: FileRef)
    returns (s: Path)
    requires f in EnumerateSubdirs(fs, subs, pattern, maxDepth, depth)
    ensures s in subs && depth <= maxDepth
    ensures ReachableWithin(fs, s, f.dir, maxDepth - depth)
    ensures Matches(pattern, f.name) && FileExists(fs, f)
    decreases Budget(maxDepth, depth), |subs|
  {
    var init := subs[..|subs| - 1];
    if f in EnumerateSubdirs(fs, init, pattern, maxDepth, depth) {
      s := EnumerateSubdirsSound(fs, init, pattern, maxDepth, depth, f);
    } else {
      s := subs[|subs| - 1];
      EnumerateSound(fs, s, pattern, maxDepth, depth, f);
    }
  }

  /** A subdirectory's files all appear in the enumeration of the subdirectory list. */
  lemma {:induction false} EnumerateSubdirsContains(fs: Fs, subs: seq<Path>, s: Path, pattern: Pattern, maxDepth: int, depth: int, f: FileRef)
    requires s in subs && f in Enumerate(fs, s, pattern, maxDepth, depth)
    ensures f in EnumerateSubdirs(fs, subs, pattern, maxDepth, depth)
    decreases |subs|
  {
    if subs[|subs| - 1] != s {
      var init := subs[..|subs| - 1];
      assert s in init by {
        var k :| 0 <= k < |subs| && subs[k] == s;
        assert init[k] == s;
      }
      EnumerateSubdirsContains(fs, init, s, pattern, maxDepth, depth, f);
    }
  }

  /** Conversely, every matching file of a directory within reach of the depth budget is
      emitted, provided the directory's file listing succeeds. */
  lemma {:induction false} EnumerateComplete(fs: Fs, p: Path, d: Path, k: nat, pattern: Pattern, maxDepth: int, depth: int, e: FileEntry)
    requires ReachableWithin(fs, p, d, k) && depth + k <= maxDepth
    requires DirExists(fs, d) && !Node(fs, d).filesFail
    requires e in FilesOf(fs, d) && Matches(pattern, e.name)
    ensures FileRef(d, e.name) in Enumerate(fs, p, pattern, maxDepth, depth)
    decreases k
  {
    if p == d {
      assert FileRef(d, e.name) in MatchingFiles(fs, p, pattern);
    } else {
      var s :| s in Node(fs, p).subdirs && ReachableWithin(fs, s, d, k - 1);
      EnumerateComplete(fs, s, d, k - 1, pattern, maxDepth, depth + 1, e);
      EnumerateSubdirsContains(fs, Node(fs, p).subdirs, s, pattern, maxDepth, depth + 1, FileRef(d, e.name));
    }
  }

  /** With no visited set, a directory that links to itself is listed once per remaining
      level of the depth budget, so its files are emitted that many times. */
  lemma {:induction false} SelfLinkRepeats(fs: Fs, p: Path, pattern: Pattern, maxDepth: int, depth: int)
    requires DirExists(fs, p) && !Node(fs, p).filesFail && !Node(fs, p).subdirsFail
    requires Node(fs, p).subdirs == [p]
    ensures |Enumerate(fs, p, pattern, maxDepth, depth)| == Budget(maxDepth, depth) * |MatchingFiles(fs, p, pattern)|
    decreases Budget(maxDepth, depth)
  {
    if depth <= maxDepth {
      SelfLinkRepeats(fs, p, pattern, maxDepth, depth + 1);
      var files := MatchingFiles(fs, p, pattern);
      var rest := Enumerate(fs, p, pattern, maxDepth, depth + 1);
      AppendEmpty([p]);
      assert EnumerateSubdirs(fs, [p], pattern, maxDepth, depth + 1) == rest;
      assert Enumerate(fs, p, pattern, maxDepth, depth) == files + rest;
      MulSucc(Budget(maxDepth, depth + 1), |files|);
    }
  }

  lemma MulSucc(b: nat, m: nat)
    ensures (b + 1) * m == b * m + m
  {
  }
}
