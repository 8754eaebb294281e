# WindowsCleanerUtility, modelled in Dafny

WindowsCleanerUtility is a Windows desktop tool that frees disk space. Four category
cleaners find files and move them to the recycle bin:

- temporary files, including the Explorer thumbnail caches;
- system logs and crash dumps;
- old files in the temporary directories;
- browser history and cookies.

A cleaning manager picks the cleaners a set of options asks for, runs them and adds up
what they report. A scheduler repeats a cleaning on a timer. A small service container
and a global exception handler wire the pieces together.

This project models that core over an abstract filesystem and proves what each part
promises.

The filesystem is a value `Fs` (module `FileSystem`):

- `tree` maps each canonical directory path to its subdirectory links and to two flags,
  for a failing file listing and a failing subdirectory listing. Links may point back to
  ancestors, as symbolic links and junctions can.
- `contents` maps each canonical directory to its file entries. An entry has a name, a
  size, a creation time, a last-write time, a `locked` flag (another process holds the
  file open) and a `denied` flag (opening it is refused).
- `canon` is an abstract canonicalisation function: two paths name the same directory
  exactly when `canon` maps them to the same key. It stands for case-insensitive
  comparison of full paths with links resolved, so a path that goes through a junction
  back to an ancestor has the ancestor's key. `Path.GetFullPath`, which the code uses,
  does not resolve links; see "Left out".

Reclaiming a file changes `contents` only. The filesystem is owned by one
`FileOperationsService` object. Each cleaner is a class with the source's `_filesProcessed`
and `_spaceFreed` counters. A cleaner method also returns, as a ghost value, the sequence
of removals it made, and its contract ties the new filesystem, the recycle bin and the
counters to that sequence.

How the rest is represented:

- Exceptions become an `Outcome` value: `Done(v)` or `Threw(e)`.
- A cancellation token is a value that says after how many polls it reports a request.
  Every method threads the poll count through, so "the token was cancelled when it was
  checked" can be stated.
- The visited `HashSet` of a directory walk is passed in and handed back.
- The clock (`DateTime.Now`) and the environment (temporary path, `LOCALAPPDATA`,
  `WINDIR`, system directory and drive) are parameters.
- How a cleaner run ends is a parameter of the manager: a function from a cleaner to its
  outcome, its counters and its start and end times.

## Model

| member | source | states |
|---|---|---|
| FileOperations.FileOperationsService.constructor | Services/FileOperationsService.cs:17-93 | the service starts on the given well-formed filesystem with an empty recycle bin |
| FileOperations.FileOperationsService.IsFileInUse | Services/FileOperationsService.cs:75-93 | `false` exactly when an exclusive read open succeeds; `true` exactly for an I/O failure (missing file or sharing violation); an access-denied error escapes and is not an I/O error |
| FileOperations.FileOperationsService.Guard | Services/FileOperationsService.cs:21-29 | the existence and in-use guards let a file through exactly when it can be opened exclusively, and then it is removable with its current entry |
| FileOperations.FileOperationsService.MoveToRecycleBin | Services/FileOperationsService.cs:17-44 | a missing, in-use or access-denied file gives `false` and leaves filesystem and bin unchanged; otherwise the file leaves its directory, its entry is appended to the bin, and the result is `true` (a failure of the shell delete itself is not modelled, see "Left out") |
| FileOperations.FileOperationsService.DeletePermanently | Services/FileOperationsService.cs:46-73 | the same guards as the move; on success the file is removed and the bin is untouched (a failure of `File.Delete` itself is not modelled, see "Left out") |
| FileSystem.FindEntry | Services/FileOperationsService.cs:21-22 | a found entry is in the list under that name; no entry means no file of that name |
| FileSystem.Listing | Services/FileUtils.cs:105 | a listing holds exactly the directory's files whose names match the pattern, each found in the directory |
| FileSystem.RemovedFileIsGone | Services/FileOperationsService.cs:31-37 | after a move the file can no longer be found |
| FileSystem.RemoveFileKeepsOthers | Services/FileOperationsService.cs:31-37 | a move leaves every other entry of every directory in place |
| FileSystem.LookupAfterRemove | Services/FileOperationsService.cs:31-37 | a move leaves the lookup of a file of another name unchanged |
| FileSystem.LockedFilesSurvive | Services/FileOperationsService.cs:25-29 | an in-use file survives any sequence of valid removals |
| FileSystem.RemovalsAppend | Services/FileOperationsService.cs:31-37 | two valid removal sequences in a row form one valid sequence, with the combined effect and summed sizes |
| FileSystem.ListingDistinct | Services/TemporaryFilesCleaner.cs:298 | a directory listing names each file once |
| FileSystem.FreeFilesCovered | Services/TemporaryFilesCleaner.cs:300-323 | one more turn of a loop that moves each listed file found free keeps "every free file so far was moved" |
| FileSystem.RemoveAllShrinks | Services/FileOperationsService.cs:31-37 | removals only take entries away |
| FileSystem.StillThereOrTaken | Services/FileOperationsService.cs:31-37 | an entry present before valid removals is still there after them, or one of them took it |
| FileSystem.ReclaimableAfter | Services/FileOperationsService.cs:31-37 | after valid removals nothing new becomes reclaimable, and what was reclaimable is still reclaimable or was taken |
| FileSystem.RemovalsAreFree | Services/FileOperationsService.cs:21-29 | every valid removal took an entry that was neither in use nor access-protected |
| FileSystem.TakenWanted | Services/OldFilesCleaner.cs:274 | a sweep that took only reclaimable old files took only old files |
| FileSystem.ListingSweep | Services/TemporaryFilesCleaner.cs:177-215 | a directory's file loop that moves only listed wanted files takes only that directory's reclaimable files; one that moves every free wanted file takes all of them |
| FileSystem.ComposeSweeps | Services/TemporaryFilesCleaner.cs:129-254 | two sweeps in a row, the second on what the first left: soundness and completeness each carry over to the union of their directories |
| FileUtils.SafeMoveToRecycleBin | Services/FileUtils.cs:19-42 | `false` without acting for a missing or in-use file; otherwise the move's result and effect; nothing escapes |
| FileUtils.EnumerateFilesInternal | Services/FileUtils.cs:89-139 | what is emitted is a prefix of `Enumerate`, and without cancellation it is all of it; a cancellation flag implies the token was cancelled |
| FileUtils.EmitFiles | Services/FileUtils.cs:116-120 | the per-file loop writes a prefix of the listing, all of it unless the token was cancelled |
| FileUtils.EnumerateSubdirsInternal | Services/FileUtils.cs:122-138 | the subdirectory loop emits a prefix of the subdirectories' enumerations, all of it without cancellation; a cancellation inside it is swallowed |
| FileUtils.EnumerateSound | Services/FileUtils.cs:97-98 | every emitted file exists, matches the pattern, and lies in a directory at most `maxDepth - depth` links below the start: nothing deeper than the bound is emitted |
| FileUtils.EnumerateComplete | Services/FileUtils.cs:102-129 | every matching file of a directory within the depth budget is emitted, provided the directory lists |
| FileUtils.SelfLinkRepeats | Services/FileUtils.cs:89-139 | with no visited set, a directory linking to itself has its files emitted once per remaining level of the depth budget |
| FileUtils.TotalSizeAppend | Services/FileUtils.cs:155-172 | the size total of a concatenation is the sum of the totals |
| FileUtils.SumLengths | Services/FileUtils.cs:157-170 | the consumer loop returns the summed sizes of the files, skipping unreadable ones; a cancellation escapes |
| FileUtils.EstimateSize | Services/FileUtils.cs:75-173 | a result is exactly the total of the enumerated files; without cancellation there is a result; a cancellation seen by the consumer, including by the channel reader asking past the last file (line 81), is rethrown |
| FileUtils.EstimateSizeOrZero | Services/FileUtils.cs:149-173 | the estimate at the default depth 10 behind the callers' catch-all: either 0 or the full total, and the full total without cancellation |
| Reclaim.LengthGoneAfterMove | Services/SystemLogsCleaner.cs:160-166 | a file's length is readable before a successful move and unreadable after it |
| Reclaim.MoveThenReadLength | Services/BrowserDataCleaner.cs:253-259 | with the length read after the move, a successful move always ends in `FileNotFoundException` |
| Reclaim.ReadLengthThenMove | Services/TemporaryFilesCleaner.cs:186-204 | with the length read first, a successful move reports the size of the entry it moved |
| Descent.OnlyEarlyExitsRemain | Services/TemporaryFilesCleaner.cs:148-175 | what a walk leaves in the visited set is made only of directories it left through an early return |
| Descent.IntactRestores | Services/TemporaryFilesCleaner.cs:253 | in a tree where no early return is possible, a walk hands the visited set back as it received it |
| Descent.ReachedSubdirsPrefix | Services/TemporaryFilesCleaner.cs:234-244 | a subdirectory loop stopped early has handled part of what the whole loop handles |
| Descent.SweepSubdirsStep | Services/TemporaryFilesCleaner.cs:234-244 | one turn of a sweeping subdirectory loop keeps "only reclaimable files of the handled directories were taken", and "all of them were" when the turn took all it could |
| Descent.SweptPrefix | Services/TemporaryFilesCleaner.cs:52-76 | the roots walked so far have handled part of what all the roots handle |
| Descent.SweepRootsStep | Services/TemporaryFilesCleaner.cs:52-76 | one turn of a sweeping loop over roots keeps soundness, and completeness when the turn was complete |
| Descent.SweepRootsStopped | Services/OldFilesCleaner.cs:48-72 | a loop over roots stopped early has taken only reclaimable files of the directories the whole loop handles |
| SystemLogs.FindFilesSafe | Services/SystemLogsCleaner.cs:226-292 | the scan returns `Find` (root's files, then each subdirectory not on the descent, in listing order) and hands the visited set back unchanged |
| SystemLogs.FindFilesInSubdirs | Services/SystemLogsCleaner.cs:263-277 | the subdirectory loop returns `FindSubdirs` and leaves the visited set unchanged |
| SystemLogs.FindSound | Services/SystemLogsCleaner.cs:246-247 | every found file exists and matches the pattern |
| SystemLogs.FindComplete | Services/SystemLogsCleaner.cs:234-277 | every matching file of a directory reached along a descent of distinct directories outside the visited set is found |
| SystemLogs.TwoCycleListsEachOnce | Services/SystemLogsCleaner.cs:267-276 | on two directories linking to each other the scan stops and lists each one's files once |
| SystemLogs.AllLogNamesMeans | Services/SystemLogsCleaner.cs:143-152 | the recursive "every removal has a log-like name" predicate means exactly that for every removal |
| SystemLogs.FirstStopMeans | Services/SystemLogsCleaner.cs:154-169 | the file loop passes over missing and in-use files and stops at the first file that can be opened exclusively or is access-protected |
| SystemLogs.StageMoveMeans | Services/SystemLogsCleaner.cs:154-169 | a stage moves the first file that can be opened exclusively when no access-protected file comes before it, and otherwise nothing |
| SystemLogs.SystemLogsCleaner.MoveFound | Services/SystemLogsCleaner.cs:154-169 | at most one found file is moved; a move is followed by `FileNotFoundException` from the length read; counters: one file, no bytes; without cancellation the move is exactly `StageMove` and the loop ends normally exactly when it passed every file |
| SystemLogs.SystemLogsCleaner.ClearPattern | Services/SystemLogsCleaner.cs:147-170 | one pattern stage moves at most one file, whose name matches the pattern; without cancellation it moves exactly `StageMove` of the scan from the system drive |
| SystemLogs.SystemLogsCleaner.PatternStage | Services/SystemLogsCleaner.cs:145-179 | one turn of the pattern loop: a cancellation escapes before the scan; otherwise the moves so far are extended by at most one, and without cancellation to `PatternMoves` of one more pattern |
| SystemLogs.SystemLogsCleaner.ClearPatternFiles | Services/SystemLogsCleaner.cs:143-179 | the five pattern stages move at most five files, all log-like; only a cancellation escapes; without cancellation the loop ends normally and the moves are exactly `PatternMoves` of the five patterns, each stage on what the earlier left |
| SystemLogs.SystemLogsCleaner.ClearMemoryDump | Services/SystemLogsCleaner.cs:182-197 | an unset `WINDIR` throws `ArgumentNullException` with nothing moved; otherwise at most `memory.dmp` is moved, and then the length read throws; without cancellation the move is exactly `DumpMove`, and the step ends normally exactly when nothing was moved |
| SystemLogs.SystemLogsCleaner.ClearMiniDumps | Services/SystemLogsCleaner.cs:200-223 | at most one mini dump is moved, and it matches `*.dmp`; without cancellation the move is exactly `MiniDumpMove`, and the step ends normally exactly when the file loop did not stop (`MiniDumpsStop`) |
| SystemLogs.SystemLogsCleaner.ClearDumps | Services/SystemLogsCleaner.cs:181-223 | the memory dump, then the mini dumps only if the dump step ended normally; an unset `WINDIR` throws `ArgumentNullException`; without cancellation the move is exactly `DumpsMove` and the step ends normally exactly when `DumpsFinish` |
| SystemLogs.SystemLogsCleaner.ClearLogFiles | Services/SystemLogsCleaner.cs:138-224 | at most seven files are moved, all log-like; an unset `WINDIR` makes the stage throw; without cancellation the moves are exactly `LogMoves` of the starting filesystem and the stage ends normally exactly when `LogStageFinishes` |
| SystemLogs.SystemLogsCleaner.ClearEventLogs | Services/SystemLogsCleaner.cs:294-351 | every way the external processes end, cancellation included, is caught: the stage always ends normally |
| SystemLogs.SystemLogsCleaner.Clean | Services/SystemLogsCleaner.cs:30-71 | counters restart from zero; only log-like files are moved; the result is `true` exactly when the log-file stage finished; an unset `WINDIR` gives `false`; without cancellation the moves are exactly `LogMoves` and the result is `true` exactly when `LogStageFinishes` of the starting filesystem |
| SystemLogs.EstimateDumps | Services/SystemLogsCleaner.cs:102-132 | without cancellation the memory dump's size plus the mini dumps' estimate; never more |
| SystemLogs.EstimateMiniDumps | Services/SystemLogsCleaner.cs:118-132 | a result is 0 (the catch-all) or the mini dumps' full estimate, and without cancellation it is the full estimate |
| SystemLogs.EstimatePatterns | Services/SystemLogsCleaner.cs:83-100 | without cancellation the sum of the five pattern estimates from the system drive; never more |
| SystemLogs.SystemLogsCleaner.EstimateSize | Services/SystemLogsCleaner.cs:73-136 | a result needs `WINDIR` and never exceeds the pattern and dump totals, which it equals without cancellation; errors are cancellation or the unset `WINDIR` |
| TemporaryFiles.EstimateExplorerCacheSize | Services/TemporaryFilesCleaner.cs:256-286 | the thumbnail caches' summed sizes, nothing for a missing directory; a failing listing throws |
| TemporaryFiles.TemporaryFilesCleaner.ReclaimIfFree | Services/TemporaryFilesCleaner.cs:181-215 | a file is moved exactly when it can be opened exclusively, and then one file and its pre-move size are counted |
| TemporaryFiles.TemporaryFilesCleaner.ProcessFiles | Services/TemporaryFilesCleaner.cs:177-215 | only listed files are moved, so only reclaimable files of the directory are taken; without cancellation every file that is neither in use nor access-protected is moved, so all of them are taken; counters follow the moves |
| TemporaryFiles.TemporaryFilesCleaner.ProcessDirectory | Services/TemporaryFilesCleaner.cs:129-254 | the visited set afterwards is `After` (entry value plus the early-exit leaks); what is taken is reclaimable in the directories the walk `Reached`, and without cancellation it is all of them; only a cancellation escapes |
| TemporaryFiles.TemporaryFilesCleaner.VisitSubdir | Services/TemporaryFilesCleaner.cs:236-243 | a visited subdirectory is skipped; otherwise it is walked; what is taken is exactly the reclaimable files of the directories `Reached` from it, all of them when the walk ended normally |
| TemporaryFiles.TemporaryFilesCleaner.ProcessSubdirs | Services/TemporaryFilesCleaner.cs:234-244 | the subdirectory loop leaves the visited set at `AfterSubdirs`; it takes only reclaimable files of the directories `ReachedSubdirs`, all of them when it ends normally; only a cancellation escapes |
| TemporaryFiles.TemporaryFilesCleaner.MoveCache | Services/TemporaryFilesCleaner.cs:304-313 | a thumbnail cache is moved exactly when it can be opened exclusively; one file and no bytes are counted |
| TemporaryFiles.TemporaryFilesCleaner.ClearExplorerCache | Services/TemporaryFilesCleaner.cs:288-326 | only top-level `thumbcache_*.db` files are moved; a failing listing throws `UnauthorizedAccessException`; no bytes are counted; a normal end means every listed cache that could be opened exclusively was moved |
| TemporaryFiles.TemporaryFilesCleaner.WalkRoot | Services/TemporaryFilesCleaner.cs:54-75 | one root: a cancellation before it escapes with nothing moved; otherwise a fresh walk taking only, and without cancellation all, reclaimable files of the directories `Reached` from the root |
| TemporaryFiles.TemporaryFilesCleaner.CleanRoots | Services/TemporaryFilesCleaner.cs:52-76 | the roots in order, each with a fresh visited set: `false` or a throw only under cancellation, `true` otherwise; the walks take only reclaimable files of `SweptDirs`, and on `true` all of them |
| TemporaryFiles.TemporaryFilesCleaner.Clean | Services/TemporaryFilesCleaner.cs:30-82 | counters restart from zero and follow the walks and the cache step; the walks take only reclaimable files of `SweptDirs`, and on `true` all of them; without cancellation and with a listable cache directory the result is `true`; the cache step's errors escape |
| TemporaryFiles.EstimateRoots | Services/TemporaryFilesCleaner.cs:103-121 | without cancellation the sum of the roots' estimates; never more |
| TemporaryFiles.EstimateRoot | Services/TemporaryFilesCleaner.cs:107-120 | a missing root adds nothing; what is added is 0 or the root's full estimate, and the full estimate without cancellation |
| TemporaryFiles.TemporaryFilesCleaner.EstimateSize | Services/TemporaryFilesCleaner.cs:84-127 | never more than the roots' and caches' totals, and equal to them without cancellation and listing failure |
| OldFiles.FromListingMeans | Services/OldFilesCleaner.cs:267-294 | a directory step removes only old files from that directory's listing |
| OldFiles.CoveredMeans | Services/OldFilesCleaner.cs:274-294 | after a full file loop every old file that is neither in use nor access-protected was moved |
| OldFiles.OldBytesMonotone | Services/OldFilesCleaner.cs:170 | a later cutoff never lowers a directory's old-file total |
| OldFiles.OldSizeMonotone | Services/OldFilesCleaner.cs:117-217 | a later cutoff never lowers the recursive estimate |
| OldFiles.SumOldBytes | Services/OldFilesCleaner.cs:163-179 | the estimate's file loop sums the sizes of the old files; a cancellation escapes |
| OldFiles.EstimateOldFilesSize | Services/OldFilesCleaner.cs:117-217 | without cancellation the result is `OldSize` and the visited set afterwards is `After`; a visited or unlistable directory adds 0 |
| OldFiles.EstimateOldSubdirs | Services/OldFilesCleaner.cs:198-212 | the subdirectory loop sums the unvisited subdirectories' estimates and leaves the visited set at `AfterSubdirs` |
| OldFiles.OldFilesCleaner.ReclaimIfOld | Services/OldFilesCleaner.cs:274-294 | a file is moved exactly when it is old and can be opened exclusively; counters add one file and its listed size |
| OldFiles.OldFilesCleaner.ProcessOldFiles | Services/OldFilesCleaner.cs:267-307 | only old listed files are moved, so only the directory's reclaimable old files are taken; without cancellation every free old file is moved, so all of them are taken |
| OldFiles.OldFilesCleaner.ProcessDirectoryForOldFiles | Services/OldFilesCleaner.cs:219-345 | the visited set afterwards is `After`; what is taken is reclaimable old files of the directories the walk `Reached`, and without cancellation it is all of them |
| OldFiles.OldFilesCleaner.VisitOldSubdir | Services/OldFilesCleaner.cs:327-338 | a visited subdirectory is skipped; otherwise it is walked; only reclaimable old files of the directories `Reached` from it are taken, all of them when the walk ended normally |
| OldFiles.OldFilesCleaner.ProcessOldSubdirs | Services/OldFilesCleaner.cs:325-340 | the subdirectory loop leaves the visited set at `AfterSubdirs` and takes only reclaimable old files of `ReachedSubdirs`, all of them when it ends normally |
| OldFiles.OldFilesCleaner.WalkOldRoot | Services/OldFilesCleaner.cs:50-71 | one root: a cancellation before it escapes with nothing moved; otherwise a fresh walk taking only, and without cancellation all, reclaimable old files of the directories `Reached` from the root |
| OldFiles.OldFilesCleaner.CleanRoots | Services/OldFilesCleaner.cs:48-72 | the three roots in order with fresh visited sets: `false` or a throw only under cancellation, `true` otherwise; only reclaimable old files of `OldSweptDirs` are taken, and on `true` all of them |
| OldFiles.OldFilesCleaner.Clean | Services/OldFilesCleaner.cs:30-76 | counters restart from zero; every moved file is older than now minus the threshold; without cancellation the result is `true`; what is taken is exactly the reclaimable old files of `OldSweptDirs` on `true`, and a part of them otherwise |
| OldFiles.OldFilesCleaner.EstimateSize | Services/OldFilesCleaner.cs:78-115 | never more than the old-file totals of the three roots, equal without cancellation |
| Browser.AnyRemovableAppend | Services/BrowserDataCleaner.cs:239-287 | some target of a concatenation can be moved exactly when one of either part can |
| Browser.FirefoxTargetsPrefix | Services/BrowserDataCleaner.cs:297-338 | the targets of the first profiles are targets of all the profiles |
| Browser.FirefoxTargetsBegin | Services/BrowserDataCleaner.cs:297-338 | the targets of the first profiles begin the list of all the profiles' targets |
| Browser.FirstRemovableWithin | Services/BrowserDataCleaner.cs:299-338 | the first removable target of one profile is the first of the whole list when no earlier profile's target can be moved |
| Browser.RemovableByVendor | Services/BrowserDataCleaner.cs:28-84 | some target can be moved exactly when some vendor has one |
| Browser.EstimateByVendor | Services/BrowserDataCleaner.cs:86-98 | the estimate is the sum of the vendors' existing target sizes; a missing Chrome profile, Firefox profile root or Edge profile contributes 0 |
| Browser.ExistingSize | Services/BrowserDataCleaner.cs:112-123 | an existing target adds its length, a missing one nothing |
| Browser.EstimateChromiumSize | Services/BrowserDataCleaner.cs:100-142 | the Chrome and Edge estimates are the summed sizes of `History` and `Cookies` when they exist |
| Browser.EstimateFirefoxSize | Services/BrowserDataCleaner.cs:144-193 | the summed sizes of every profile's `places.sqlite` and `cookies.sqlite`; a failing profile listing throws |
| Browser.StepRemovesIffRemovable | Services/BrowserDataCleaner.cs:239-287 | without cancellation or listing failure, a vendor step moves a file exactly when one of its targets can be moved, and ends normally exactly when none can |
| Browser.StepsReportedNext | Services/BrowserDataCleaner.cs:37-80 | the next vendor step's report, against the state the earlier steps left, extends the run's report |
| Browser.StepMeaning | Services/BrowserDataCleaner.cs:37-80 | one vendor's `try`: at most one target taken, the first that could be moved; without cancellation a file is moved exactly when a target could be moved, also when the Firefox profile listing failed (then Firefox has no targets) |
| Browser.CleanMeaning | Services/BrowserDataCleaner.cs:28-84 | each step takes at most one target, the first one that could be moved at its turn; `true` means all three steps ran and nothing could be moved; a failing Firefox listing means `false`; without cancellation all three steps run, also after a failing Firefox listing (the Edge step at lines 65-80 still runs), `true` means exactly that the Firefox listing did not fail and no target could be moved, and each step moves a file exactly when one of its targets could be moved |
| Browser.BrowserDataCleaner.ClearTarget | Services/BrowserDataCleaner.cs:248-265 | an existing target is checked for cancellation and moved if free; a move ends in `FileNotFoundException` from the length read; failure to move only logs |
| Browser.BrowserDataCleaner.ClearPair | Services/BrowserDataCleaner.cs:245-285 | two targets in turn: the first move ends the step, so the file moved is the first that could be moved; the step ends normally only when neither can be moved |
| Browser.BrowserDataCleaner.ClearChromium | Services/BrowserDataCleaner.cs:239-287 | `History` and `Cookies` of the Chrome or Edge profile, when it exists, with the step report above: at most one moved, the first movable one |
| Browser.BrowserDataCleaner.ClearFirefoxProfiles | Services/BrowserDataCleaner.cs:299-338 | the profile loop with a cancellation check per profile, with the step report over all profiles' targets: at most one moved, the first movable one in profile order |
| Browser.BrowserDataCleaner.ClearFirefox | Services/BrowserDataCleaner.cs:289-340 | nothing for a missing root; a failing profile listing throws `UnauthorizedAccessException`; otherwise the profile loop |
| Browser.BrowserDataCleaner.ClearVendor | Services/BrowserDataCleaner.cs:239-390 | one vendor's step, with the step report over that vendor's targets |
| Browser.BrowserDataCleaner.NextStep | Services/BrowserDataCleaner.cs:37-50 | one `try` of `CleanAsync`: the step's report extends the run's |
| Browser.BrowserDataCleaner.RunSteps | Services/BrowserDataCleaner.cs:35-83 | the three steps in vendor order; the result is whether every step that ran ended normally; the run stops early only on cancellation |
| Browser.BrowserDataCleaner.Clean | Services/BrowserDataCleaner.cs:28-84 | counters restart from zero, no bytes are counted, and the result satisfies `CleanReport`: without cancellation all three vendor steps run, whatever the Firefox listing does, and `true` exactly when that listing did not fail and no target could be moved |
| Browser.BrowserDataCleaner.EstimateSize | Services/BrowserDataCleaner.cs:86-98 | the three vendors' estimates added; equal to the existing targets' total without cancellation and listing failure |
| Options.Defaults | Services/CleaningOptions.cs:7-18 | all seven categories on, a 30-day threshold, recycling and progress on |
| Manager.KindOrderComplete | Services/CleaningManager.cs:112-127 | the fixed cleaner order lists every kind once, in strictly increasing rank |
| Manager.WantedAmongMembers | Services/CleaningManager.cs:114-127 | filtering a kind list keeps exactly the wanted kinds of that list |
| Manager.WantedAmongRanked | Services/CleaningManager.cs:112-127 | filtering keeps the rank order |
| Manager.WantedKindsExact | Services/CleaningManager.cs:114-127 | a kind is selected exactly when the options want it (logs or event logs for system logs, history or cookies for browser data), each at most once, in the fixed order |
| Manager.DefaultsSelectAll | Services/CleaningOptions.cs:7-13 | default options select all five cleaners, in order |
| Manager.FirstOfKind | Services/CleaningManager.cs:34 | the index of the first injected cleaner of a kind, or none when there is no such cleaner |
| Manager.Pick | Services/CleaningManager.cs:31-46 | succeeds exactly when every requested kind has a cleaner, picking the first of each kind in request order; otherwise `InvalidOperationException` |
| Manager.SelectionMeaning | Services/CleaningManager.cs:31-46 | selection fails exactly when a wanted kind has no cleaner; otherwise every picked cleaner is injected and wanted, every wanted kind is picked, in strictly increasing rank |
| Manager.ServiceResultMeaning | Services/CleaningManager.cs:139-182 | name and start copied; success exactly for a `true` result; counters only on success, 0 otherwise; an error message exactly when the cleaner threw, "Operation was cancelled" for cancellation and the exception's message otherwise |
| Manager.Results | Services/CleaningManager.cs:186-187 | one service result per selected cleaner |
| Manager.ResultsInOrder | Services/CleaningManager.cs:131-187 | the k-th result is that of the k-th selected cleaner |
| Manager.TotalsCountSuccesses | Services/CleaningManager.cs:189-190 | the totals over the results are the counters of the cleaners that succeeded |
| Manager.RunSelected | Services/CleaningManager.cs:48-98 | throws `OperationCanceledException` exactly when cancellation is seen before some launch; otherwise `true` exactly when every cleaner returned `true` without throwing (so `true` when none is selected) |
| Manager.ReportSelected | Services/CleaningManager.cs:129-187 | throws exactly when cancellation is seen before some launch; otherwise the list of service results |
| Manager.CleaningManager.PerformCleaning | Services/CleaningManager.cs:20-99 | a selection error passes through; otherwise the run's result as above |
| Manager.CleaningManager.PerformCleaningWithReport | Services/CleaningManager.cs:101-196 | the service results, their sums as totals, the start and end times, and duration = end − start |
| Scheduler.ValidIntervalRange | Services/SchedulerService.cs:26-28 | a whole-hour interval builds a timer exactly from 0 to 1193 hours |
| Scheduler.SchedulerService.constructor | Services/SchedulerService.cs:15 | no timer, no options, not scheduled |
| Scheduler.SchedulerService.ScheduleCleanup | Services/SchedulerService.cs:23-32 | options stored first; success exactly for a valid interval, with a fresh undisposed timer and `IsScheduled`; the old timer is not disposed; a bad interval throws and leaves timer and flag alone |
| Scheduler.SchedulerService.CancelSchedule | Services/SchedulerService.cs:34-40 | the current timer, if any, is disposed and `IsScheduled` is false; safe with no timer |
| Scheduler.SchedulerService.Dispose | Services/SchedulerService.cs:56-59 | the current timer, if any, is disposed |
| Scheduler.SchedulerService.DoScheduledCleanup | Services/SchedulerService.cs:42-54 | a firing always ends normally; it runs the stored options with no cancellation, so the cleaning throws only for a missing cleaner, or on null options |
| Container.Lookup | Services/ServiceContainer.cs:18-26 | the registered instance exactly for a registered type; otherwise `InvalidOperationException` naming the type |
| Container.RegisterThenLookup | Services/ServiceContainer.cs:13-26 | after registering `s` for a type, looking it up yields `s`; every other type looks up as before |
| Container.RegisterReplaces | Services/ServiceContainer.cs:15 | registering a type twice keeps only the second instance |
| Container.ServiceContainer.Register | Services/ServiceContainer.cs:13-16 | sets the type's entry and nothing else |
| Container.ServiceContainer.Get | Services/ServiceContainer.cs:18-26 | the lookup of the type in the current registry |
| Handler.Handle | Services/GlobalExceptionHandler.cs:15-31 | a value comes back unchanged; cancellation becomes the default; any other error is wrapped |
| Handler.HandleVoid | Services/GlobalExceptionHandler.cs:33-48 | completion and cancellation end normally; any other error is wrapped |
| Handler.HandledErrorsAreWrapped | Services/GlobalExceptionHandler.cs:26-30 | a handler throws exactly for a non-cancellation error, and then a `CleaningException` "Failed to execute <name>" with the original inside |
| Handler.VoidMatchesGeneric | Services/GlobalExceptionHandler.cs:33-48 | the void overload is the generic one with a unit default |

## Left out

- Logging (`ILoggerService`) is a no-op. `LoggerService`, `ReportService`, the forms and the settings file are not part of this model.
- `DNSCacheCleaner` runs `ipconfig` as an external process. It is not part of this model. The manager treats it as one more cleaner whose run is a parameter.
- The event-log clearing runs PowerShell and `wevtutil` as external processes. It is an opaque value: cleared, cancelled while waiting, or failed, with the alternative cleared, failed or cancelled.
- The producer/consumer channel of `EnumerateFilesAsync` and the `Task.Run`/`Task.WhenAll` parallelism of the manager are concurrency. Both are modelled as sequential runs in list order.
- The manager's `allSuccess` in `PerformCleaningWithReportAsync` is never read, so it is not modelled.
- `long` and `int` counters are unbounded integers; overflow of `_spaceFreed`, `_filesProcessed` and the totals is not modelled.
- Manager.CleaningManager.PerformCleaningWithReport: the per-service and overall times are parameters, not clock reads, so only their relation (duration = end − start) is stated.
- `CleaningOptions.DaysForOldFiles` and `MoveToRecycleBin` are carried but never read. The old-files cleaner uses its constructor threshold, 30 by default.
- Scheduler.IntervalError: which exception an out-of-range interval raises depends on the framework's `TimeSpan` and `Timer` checks. The model picks `OverflowException` beyond `TimeSpan`'s range and `ArgumentOutOfRangeException` otherwise.
- Scheduler.SchedulerService.Dispose leaves `IsScheduled` as it was, as the code does.
- Scheduler.Timer is a handle that records its interval and whether it was disposed. A firing is a call of `DoScheduledCleanup`.
- Container.ServiceContainer.Get: the cast to `T` is assumed to succeed, since `Register<T>` stores a `T`.
- Path combination and pattern matching cover the names and patterns the cleaners use. Case folding is ASCII only.
- FileOperations.FileOperationsService.MoveToRecycleBin: a failure of `FileSystem.DeleteFile` after both guards have passed (for example on a read-only file), which the code catches and reports as `false` (Services/FileOperationsService.cs:31-34, 39-43), is not modelled; a file that passes the guards is always moved.
- FileOperations.FileOperationsService.DeletePermanently: likewise, a failure of `File.Delete` after the guards (Services/FileOperationsService.cs:60-63, 68-72) is not modelled; a file that passes the guards is always deleted.
- Directory identity through links: `canon` resolves links, but the code keys its visited sets with `Path.GetFullPath`, which only normalises the text of a path. On a real junction back to an ancestor every trip round the cycle gives a new, longer path, so the code descends until the path is too long and the resulting error is caught. A finite `tree` cannot represent that unbounded chain of paths, so the walks' termination through the visited set, `SystemLogs.TwoCycleListsEachOnce` and the `Reached` sets describe a canonicalisation that resolves links; for the code as written they hold for trees whose only aliases are textual (`.`, `..`, case).

## Findings

| source | as written | input that shows it | evidently intended | confidence | as-written member | corrected member |
|---|---|---|---|---|---|---|
| Services/SystemLogsCleaner.cs:160-166 | a `FileInfo` is made before the move and its `Length` is first read after a successful move (the same at Services/BrowserDataCleaner.cs:253-259 and Services/TemporaryFilesCleaner.cs:306-312); `FileInfo` loads lazily, so the read looks for a file that is gone | any file that is free to move, e.g. an unlocked `a.log` under the system drive: the move succeeds, `_filesProcessed` is bumped, then `Length` throws `FileNotFoundException` | the size of the moved file is added to `_spaceFreed` and the loop goes on | not executed | Reclaim.MoveThenReadLength | Reclaim.ReadLengthThenMove |

`Reclaim.LengthGoneAfterMove` proves that the length is readable just before a successful
move and unreadable just after it. `Reclaim.MoveThenReadLength` shows the consequence: after
a successful move the length read always throws. `Reclaim.ReadLengthThenMove` reads first and
reports the moved entry's size. `TemporaryFilesCleaner.ProcessDirectoryAsync` already reads
the size that way (Services/TemporaryFilesCleaner.cs:186).

The three cleaners above keep the code as written, because what they return depends on the
failure:

- each system-log pattern stage and each dump step moves at most one file, and `SpaceFreed`
  stays 0;
- a browser vendor step ends with an error after its first move, so `CleanAsync` returns
  `true` only when nothing could be moved;
- the thumbnail-cache loop catches the error per file
  (Services/TemporaryFilesCleaner.cs:320-323): every free cache is still moved and counted
  in `FilesProcessed`, but none adds to `SpaceFreed`.

## Behaviour of the code worth knowing

- `FileUtils.EnumerateFilesInternalAsync` has no visited set. It stops on cyclic links only
  because of the depth bound. A self-linked directory has its files emitted once per
  remaining level (`FileUtils.SelfLinkRepeats`).
- The catch-all around the subdirectory loop (Services/FileUtils.cs:135-138) also swallows
  cancellation raised in that loop and in the recursive calls.
- The temporary-files, old-files and old-files-estimate walks add a directory to the visited
  set and remove it at the end. Their early returns skip the removal.
  - The set handed back is the entry set plus the directories left early
    (`Descent.OnlyEarlyExitsRemain`).
  - It equals the entry set only when no early return happens (`Descent.IntactRestores`).
- The cancellation check at Services/TemporaryFilesCleaner.cs:54 is outside the `try`, so a
  cancellation between roots escapes `CleanAsync` instead of returning `false`.
- `ClearEventLogsAsync` catches everything, so the error branches of the system-logs
  `CleanAsync` around it (Services/SystemLogsCleaner.cs:58-67) are never taken.
