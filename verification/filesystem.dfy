/** The abstract filesystem the cleaners work on.

    A directory is known by its canonical path: the full path, compared without regard
    to case and with links resolved, so a link back to an ancestor leads to the
    ancestor's own key. (`Path.GetFullPath`, which the cleaners use, does not resolve
    links; for them this identity holds where the only aliases are textual.) The static
    structure of a directory -- its subdirectory links, which may point back to
    ancestors as symbolic links and junctions can, and whether listing its files or its
    subdirectories fails -- lives in `tree`; its files live in `contents`. Reclaiming a
    file changes `contents` only. */
module FileSystem {
  import opened Common

  type Path = string

  /** `Path.Combine(a, b)` for a relative `b`. */
  function Combine(a: Path, b: string): Path {
    if a == [] then b
    else if a[|a| - 1] == '\\' then a + b
    else a + "\\" + b
  }

  /** ASCII case folding, as Windows file-name matching does it. */
  function FoldCase(s: string): string {
    if s == [] then []
    else [if 'A' <= s[0] <= 'Z' then (s[0] as int + 32) as char else s[0]] + FoldCase(s[1..])
  }

  /** The search patterns the cleaners use: `*`, `*.ext` and `prefix*suffix`. */
  datatype Pattern = AnyName | EndsWith(suffix: string) | StartsAndEndsWith(prefix: string, suffix: string)

  predicate Matches(pattern: Pattern, name: string) {
    var n := FoldCase(name);
    match pattern
    case AnyName => true
    case EndsWith(s) =>
      var t := FoldCase(s); |t| <= |n| && n[|n| - |t|..] == t
    case StartsAndEndsWith(p, s) =>
      var u := FoldCase(p); var t := FoldCase(s);
      |u| + |t| <= |n| && n[..|u|] == u && n[|n| - |t|..] == t
  }

  /** A file as a directory listing reports it. `locked`: another process holds it open
      (an exclusive open fails with a sharing violation). `denied`: opening it is refused
      with an access-denied error. */
  datatype FileEntry = FileEntry(name: string, size: nat, created: int, lastWrite: int,
                                 locked: bool, denied: bool)

  datatype DirNode = DirNode(subdirs: seq<Path>, filesFail: bool, subdirsFail: bool)

  datatype Fs = Fs(tree: map<Path, DirNode>, contents: map<Path, seq<FileEntry>>, canon: Path -> Path)

  /** A file, named by the directory path it was reached through and its name. */
  datatype FileRef = FileRef(dir: Path, name: string)

  function FullName(f: FileRef): Path { Combine(f.dir, f.name) }

  predicate UniqueNames(files: seq<FileEntry>) {
    forall i, j :: 0 <= i < j < |files| ==> files[i].name != files[j].name
  }

  /** Every directory has a (possibly empty) file list, and no directory holds two
      files of one name. */
  ghost predicate WellFormed(fs: Fs) {
    fs.contents.Keys == fs.tree.Keys &&
    forall k :: k in fs.contents ==> UniqueNames(fs.contents[k])
  }

  /** `Directory.Exists`. */
  predicate DirExists(fs: Fs, p: Path) {
    fs.canon(p) in fs.tree
  }

  function Node(fs: Fs, p: Path): DirNode
    requires DirExists(fs, p)
  {
    fs.tree[fs.canon(p)]
  }

  /** The files currently in the directory `p` (none if it does not exist). */
  function FilesOf(fs: Fs, p: Path): seq<FileEntry> {
    if fs.canon(p) in fs.contents then fs.contents[fs.canon(p)] else []
  }

  /** The first entry of `files` called `name`. */
  function FindEntry(files: seq<FileEntry>, name: string): (r: Option<FileEntry>)
    ensures r.Some? ==> r.value in files && r.value.name == name
    ensures r.None? ==> forall e :: e in files ==> e.name != name
  {
    if files == [] then None
    else if files[0].name == name then Some(files[0])
    else FindEntry(files[1..], name)
  }

  /** In a list without repeated names, the entry called `e.name` is `e`. */
  lemma {:induction false} FindEntryUnique(files: seq<FileEntry>, e: FileEntry)
    requires UniqueNames(files) && e in files
    ensures FindEntry(files, e.name) == Some(e)
  {
    if files[0] != e {
      assert files[0].name != e.name by {
        var k :| 0 <= k < |files| && files[k] == e;
        assert k != 0;
      }
      UniqueTail(files);
      FindEntryUnique(files[1..], e);
    }
  }

  /** `File.Exists` and the metadata of a file. */
  function Lookup(fs: Fs, f: FileRef): Option<FileEntry> {
    FindEntry(FilesOf(fs, f.dir), f.name)
  }

  predicate FileExists(fs: Fs, f: FileRef) {
    Lookup(fs, f).Some?
  }

  /** The files of `entries` whose names match `pattern`, as paths under `dir`, in listing order. */
  function Listing(dir: Path, entries: seq<FileEntry>, pattern: Pattern): (r: seq<FileRef>)
    ensures forall f :: f in r ==> f.dir == dir && Matches(pattern, f.name) && FindEntry(entries, f.name).Some?
    ensures forall e :: e in entries && Matches(pattern, e.name) ==> FileRef(dir, e.name) in r
  {
    if entries == [] then []
    else (if Matches(pattern, entries[0].name) then [FileRef(dir, entries[0].name)] else [])
         + Listing(dir, entries[1..], pattern)
  }

  /** No two of `files` have the same name. */
  predicate DistinctNames(files: seq<FileRef>) {
    forall i, j :: 0 <= i < j < |files| ==> files[i].name != files[j].name
  }

  lemma DistinctCons(x: FileRef, rest: seq<FileRef>)
    requires DistinctNames(rest) && forall f :: f in rest ==> f.name != x.name
    ensures DistinctNames([x] + rest)
  {
    var all := [x] + rest;
    forall i, j | 0 <= i < j < |all| ensures all[i].name != all[j].name {
      assert all[j] == rest[j - 1];
      if i == 0 {
        assert rest[j - 1] in rest;
      } else {
        assert all[i] == rest[i - 1];
      }
    }
  }

  /** A listing of a directory without duplicate names names each file once. */
  lemma {:induction false} ListingDistinct(dir: Path, entries: seq<FileEntry>, pattern: Pattern)
    requires UniqueNames(entries)
    ensures DistinctNames(Listing(dir, entries, pattern))
  {
    if entries != [] {
      UniqueTail(entries);
      ListingDistinct(dir, entries[1..], pattern);
      var rest := Listing(dir, entries[1..], pattern);
      if Matches(pattern, entries[0].name) {
        forall f | f in rest ensures f.name != entries[0].name {
          assert FindEntry(entries[1..], f.name).Some?;
        }
        DistinctCons(FileRef(dir, entries[0].name), rest);
      }
    }
  }

  /** `Directory.GetFiles(p, pattern)` on a directory whose file listing succeeds. */
  function MatchingFiles(fs: Fs, p: Path, pattern: Pattern): seq<FileRef> {
    Listing(p, FilesOf(fs, p), pattern)
  }

  /** `FileInfo.Length` read from the filesystem as it is now: it fails with
      `FileNotFoundException` when the file is not there. */
  function FileLength(fs: Fs, f: FileRef): Option<nat> {
    match Lookup(fs, f)
    case None => None
    case Some(e) => Some(e.size)
  }

  /** What `File.Open(path, Open, Read, FileShare.None)` does. */
  datatype OpenResult = Opened | NotFound | Shared | Denied

  function OpenExclusive(fs: Fs, f: FileRef): OpenResult {
    match Lookup(fs, f)
    case None => NotFound
    case Some(e) => if e.denied then Denied else if e.locked then Shared else Opened
  }

  /** `files` without the entries called `name`. */
  function Without(files: seq<FileEntry>, name: string): (r: seq<FileEntry>)
    ensures forall e :: e in r <==> e in files && e.name != name
  {
    if files == [] then []
    else if files[0].name == name then Without(files[1..], name)
    else [files[0]] + Without(files[1..], name)
  }

  lemma UniqueTail(files: seq<FileEntry>)
    requires files != [] && UniqueNames(files)
    ensures UniqueNames(files[1..])
    ensures forall e :: e in files[1..] ==> e.name != files[0].name
  {
    forall i, j | 0 <= i < j < |files[1..]|
      ensures files[1..][i].name != files[1..][j].name
    {
      assert files[1..][i] == files[i + 1] && files[1..][j] == files[j + 1];
    }
    forall e | e in files[1..] ensures e.name != files[0].name {
      var k :| 0 <= k < |files[1..]| && files[1..][k] == e;
      assert files[k + 1] == e;
    }
  }

  lemma UniqueCons(x: FileEntry, rest: seq<FileEntry>)
    requires UniqueNames(rest) && forall e :: e in rest ==> e.name != x.name
    ensures UniqueNames([x] + rest)
  {
    var r := [x] + rest;
    forall i, j | 0 <= i < j < |r| ensures r[i].name != r[j].name {
      if i == 0 {
        assert r[j] == rest[j - 1] && r[j] in rest;
      } else {
        assert r[i] == rest[i - 1] && r[j] == rest[j - 1];
      }
    }
  }

  lemma {:induction false} WithoutKeepsUnique(files: seq<FileEntry>, name: string)
    requires UniqueNames(files)
    ensures UniqueNames(Without(files, name))
  {
    if files != [] {
      UniqueTail(files);
      WithoutKeepsUnique(files[1..], name);
      if files[0].name != name {
        UniqueCons(files[0], Without(files[1..], name));
      }
    }
  }

  /** The filesystem after the file `f` has left its directory. */
  function RemoveFile(fs: Fs, f: FileRef): (r: Fs)
    ensures r.tree == fs.tree && r.canon == fs.canon && r.contents.Keys == fs.contents.Keys
  {
    var c := fs.canon(f.dir);
    if c in fs.contents then fs.(contents := fs.contents[c := Without(fs.contents[c], f.name)])
    else fs
  }

  lemma RemoveFileWellFormed(fs: Fs, f: FileRef)
    requires WellFormed(fs)
    ensures WellFormed(RemoveFile(fs, f))
  {
    var c := fs.canon(f.dir);
    if c in fs.contents {
      WithoutKeepsUnique(fs.contents[c], f.name);
    }
  }

  /** After a file has been removed it can no longer be found. */
  lemma RemovedFileIsGone(fs: Fs, f: FileRef)
    ensures Lookup(RemoveFile(fs, f), f) == None
  {
    var r := RemoveFile(fs, f);
    var c := fs.canon(f.dir);
    if c in fs.contents {
      assert FilesOf(r, f.dir) == Without(fs.contents[c], f.name);
    }
  }

  /** Removing one file leaves every other entry of every directory in place. */
  lemma RemoveFileKeepsOthers(fs: Fs, f: FileRef, p: Path, e: FileEntry)
    requires e in FilesOf(fs, p)
    requires fs.canon(p) != fs.canon(f.dir) || e.name != f.name
    ensures e in FilesOf(RemoveFile(fs, f), p)
  {
  }

  /** A listing has no repeated names, and looking up each of its files finds that entry. */
  lemma ListedFilesFound(fs: Fs, dir: Path)
    requires WellFormed(fs)
    ensures UniqueNames(FilesOf(fs, dir))
    ensures forall e :: e in FilesOf(fs, dir) ==> Lookup(fs, FileRef(dir, e.name)) == Some(e)
  {
    forall e | e in FilesOf(fs, dir) ensures Lookup(fs, FileRef(dir, e.name)) == Some(e) {
      FindEntryUnique(FilesOf(fs, dir), e);
    }
  }

  lemma {:induction false} FindEntryWithout(files: seq<FileEntry>, gone: string, name: string)
    requires gone != name
    ensures FindEntry(Without(files, gone), name) == FindEntry(files, name)
  {
    if files != [] {
      FindEntryWithout(files[1..], gone, name);
      if files[0].name != gone {
        assert ([files[0]] + Without(files[1..], gone))[1..] == Without(files[1..], gone);
      }
    }
  }

  /** Removing one file leaves the lookup of a file of another name unchanged. */
  lemma LookupAfterRemove(fs: Fs, f: FileRef, g: FileRef)
    requires g.name != f.name
    ensures Lookup(RemoveFile(fs, f), g) == Lookup(fs, g)
  {
    var c := fs.canon(f.dir);
    if c in fs.contents && fs.canon(g.dir) == c {
      FindEntryWithout(fs.contents[c], f.name, g.name);
    }
  }

  /** A removal as a cleaner performs it: the file and the entry it had when it was moved. */
  datatype Removal = Removal(file: FileRef, entry: FileEntry)

  /** `r` may be carried out on `fs`: the file is there with that entry and it can be
      opened exclusively, so it is neither in use nor access-protected. */
  predicate Removable(fs: Fs, r: Removal) {
    Lookup(fs, r.file) == Some(r.entry) && OpenExclusive(fs, r.file) == Opened
  }

  /** A loop over `files` that moves each file found free, looked up on a filesystem where
      it is as it was at the start: after turn `i`, every file of the first `i + 1` that
      was free at the start has been moved. */
  lemma FreeFilesCovered(fs0: Fs, now: Fs, files: seq<FileRef>, i: nat, rs: seq<Removal>, more: seq<Removal>)
    requires i < |files| && Lookup(now, files[i]) == Lookup(fs0, files[i])
    requires more == if OpenExclusive(now, files[i]) == Opened then [Removal(files[i], Lookup(now, files[i]).value)] else []
    requires forall k :: 0 <= k < i && OpenExclusive(fs0, files[k]) == Opened ==> Removal(files[k], Lookup(fs0, files[k]).value) in rs
    ensures forall k :: 0 <= k <= i && OpenExclusive(fs0, files[k]) == Opened ==> Removal(files[k], Lookup(fs0, files[k]).value) in rs + more
  {
    forall k | 0 <= k <= i && OpenExclusive(fs0, files[k]) == Opened
      ensures Removal(files[k], Lookup(fs0, files[k]).value) in rs + more
    {
      if k == i {
        assert (rs + more)[|rs|] == Removal(files[i], Lookup(fs0, files[i]).value);
      } else {
        assert Removal(files[k], Lookup(fs0, files[k]).value) in rs;
      }
    }
  }

  /** The filesystem after the removals `rs`, in order. */
  function RemoveAll(fs: Fs, rs: seq<Removal>): (r: Fs)
    ensures r.tree == fs.tree && r.canon == fs.canon && r.contents.Keys == fs.contents.Keys
  {
    if rs == [] then fs else RemoveFile(RemoveAll(fs, rs[..|rs| - 1]), rs[|rs| - 1].file)
  }

  /** Each removal of `rs` was possible when it happened. */
  ghost predicate ValidRemovals(fs: Fs, rs: seq<Removal>) {
    rs == [] ||
    (ValidRemovals(fs, rs[..|rs| - 1]) && Removable(RemoveAll(fs, rs[..|rs| - 1]), rs[|rs| - 1]))
  }

  function SumSizes(rs: seq<Removal>): nat {
    if rs == [] then 0 else SumSizes(rs[..|rs| - 1]) + rs[|rs| - 1].entry.size
  }

  lemma RemoveAllWellFormed(fs: Fs, rs: seq<Removal>)
    requires WellFormed(fs)
    ensures WellFormed(RemoveAll(fs, rs))
  {
    if rs != [] {
      RemoveAllWellFormed(fs, rs[..|rs| - 1]);
      RemoveFileWellFormed(RemoveAll(fs, rs[..|rs| - 1]), rs[|rs| - 1].file);
    }
  }

  /** The last step of a non-empty removal sequence, spelled out. */
  lemma RemovalsLast(fs: Fs, rs: seq<Removal>, init: seq<Removal>, r: Removal)
    requires rs == init + [r]
    ensures ValidRemovals(fs, rs) <==> ValidRemovals(fs, init) && Removable(RemoveAll(fs, init), r)
    ensures RemoveAll(fs, rs) == RemoveFile(RemoveAll(fs, init), r.file)
    ensures SumSizes(rs) == SumSizes(init) + r.entry.size
  {
    assert rs[..|rs| - 1] == init && rs[|rs| - 1] == r;
  }

  /** Extending a valid removal sequence by one removable file. */
  lemma RemovalsSnoc(fs: Fs, rs: seq<Removal>, r: Removal)
    requires ValidRemovals(fs, rs) && Removable(RemoveAll(fs, rs), r)
    ensures ValidRemovals(fs, rs + [r])
    ensures RemoveAll(fs, rs + [r]) == RemoveFile(RemoveAll(fs, rs), r.file)
    ensures SumSizes(rs + [r]) == SumSizes(rs) + r.entry.size
  {
    RemovalsLast(fs, rs + [r], rs, r);
  }

  /** Two valid removal sequences, one after the other, form one. */
  lemma {:induction false} RemovalsAppend(fs: Fs, a: seq<Removal>, b: seq<Removal>)
    requires ValidRemovals(fs, a) && ValidRemovals(RemoveAll(fs, a), b)
    ensures ValidRemovals(fs, a + b)
    ensures RemoveAll(fs, a + b) == RemoveAll(RemoveAll(fs, a), b)
    ensures SumSizes(a + b) == SumSizes(a) + SumSizes(b)
    decreases |b|
  {
    if b == [] {
      AppendEmpty(a);
    } else {
      var b', last := b[..|b| - 1], b[|b| - 1];
      var mid := RemoveAll(fs, a);
      SnocParts(b);
      RemovalsLast(mid, b, b', last);
      RemovalsAppend(fs, a, b');
      AppendFront(a, b);
      RemovalsLast(fs, a + b, a + b', last);
    }
  }

  /** In-use files are never reclaimed: a locked entry survives any sequence of valid
      removals. */
  lemma {:induction false} LockedFilesSurvive(fs: Fs, rs: seq<Removal>, p: Path, e: FileEntry)
    requires WellFormed(fs) && ValidRemovals(fs, rs)
    requires e in FilesOf(fs, p) && e.locked
    ensures e in FilesOf(RemoveAll(fs, rs), p)
  {
    if rs != [] {
      var init := rs[..|rs| - 1];
      var r := rs[|rs| - 1];
      var cur := RemoveAll(fs, init);
      LockedFilesSurvive(fs, init, p, e);
      RemoveAllWellFormed(fs, init);
      if cur.canon(p) == cur.canon(r.file.dir) && e.name == r.file.name {
        FindEntryUnique(FilesOf(cur, p), e);
        assert false;
      }
      RemoveFileKeepsOthers(cur, r.file, p, e);
    }
  }

  /** A file is old at `cutoff` (`DateTime` ticks) when it was created or last written
      before it. */
  predicate IsOld(e: FileEntry, cutoff: int) {
    e.created < cutoff || e.lastWrite < cutoff
  }

  /** Which files a sweep is after: any file, or the files old at a cutoff. */
  datatype Wanted = AnyAge | OlderThan(cutoff: int)

  predicate Wants(w: Wanted, e: FileEntry) {
    match w
    case AnyAge => true
    case OlderThan(cutoff) => IsOld(e, cutoff)
  }

  /** The files a sweep after `w` may reclaim in the canonical directories `cs`: each wanted
      entry nobody holds open and that may be opened, paired with its directory. */
  function Reclaimable(fs: Fs, cs: set<Path>, w: Wanted): set<(Path, FileEntry)> {
    set c, e | c in cs && c in fs.contents && e in fs.contents[c] && Wants(w, e) && !e.locked && !e.denied :: (c, e)
  }

  /** What the removals `rs` took: each file's canonical directory with its entry. */
  function Taken(canon: Path -> Path, rs: seq<Removal>): set<(Path, FileEntry)> {
    set x | x in rs :: (canon(x.file.dir), x.entry)
  }

  lemma TakenAppend(canon: Path -> Path, a: seq<Removal>, b: seq<Removal>)
    ensures Taken(canon, a + b) == Taken(canon, a) + Taken(canon, b)
  {
    forall p | p in Taken(canon, a + b) ensures p in Taken(canon, a) + Taken(canon, b) {
      var x :| x in a + b && p == (canon(x.file.dir), x.entry);
    }
  }

  lemma ReclaimableUnion(fs: Fs, a: set<Path>, b: set<Path>, w: Wanted)
    ensures Reclaimable(fs, a + b, w) == Reclaimable(fs, a, w) + Reclaimable(fs, b, w)
  {
  }

  lemma ReclaimableMono(fs: Fs, a: set<Path>, b: set<Path>, w: Wanted)
    requires a <= b
    ensures Reclaimable(fs, a, w) <= Reclaimable(fs, b, w)
  {
  }

  /** Removals only take entries away. */
  lemma {:induction false} RemoveAllShrinks(fs: Fs, rs: seq<Removal>, c: Path, e: FileEntry)
    requires c in RemoveAll(fs, rs).contents && e in RemoveAll(fs, rs).contents[c]
    ensures c in fs.contents && e in fs.contents[c]
  {
    if rs != [] {
      RemoveAllShrinks(fs, rs[..|rs| - 1], c, e);
    }
  }

  /** An entry present before valid removals is still there after them, or one of them
      took it. */
  lemma {:induction false} StillThereOrTaken(fs: Fs, rs: seq<Removal>, c: Path, e: FileEntry)
    requires WellFormed(fs) && ValidRemovals(fs, rs)
    requires c in fs.contents && e in fs.contents[c]
    ensures e in RemoveAll(fs, rs).contents[c] || (c, e) in Taken(fs.canon, rs)
  {
    if rs != [] {
      var init, x := rs[..|rs| - 1], rs[|rs| - 1];
      var cur := RemoveAll(fs, init);
      StillThereOrTaken(fs, init, c, e);
      SnocParts(rs);
      TakenAppend(fs.canon, init, [x]);
      if e in cur.contents[c] {
        if fs.canon(x.file.dir) == c && x.file.name == e.name {
          RemoveAllWellFormed(fs, init);
          FindEntryUnique(cur.contents[c], e);
          assert x.entry == e;
        }
      }
    }
  }

  /** Valid removals between two sweeps: what is reclaimable afterwards was reclaimable
      before, and what was reclaimable before is reclaimable afterwards or was taken. */
  lemma ReclaimableAfter(fs: Fs, rs: seq<Removal>, cs: set<Path>, w: Wanted)
    requires WellFormed(fs) && ValidRemovals(fs, rs)
    ensures Reclaimable(RemoveAll(fs, rs), cs, w) <= Reclaimable(fs, cs, w)
    ensures Reclaimable(fs, cs, w) <= Reclaimable(RemoveAll(fs, rs), cs, w) + Taken(fs.canon, rs)
  {
    var after := RemoveAll(fs, rs);
    forall p | p in Reclaimable(after, cs, w) ensures p in Reclaimable(fs, cs, w) {
      RemoveAllShrinks(fs, rs, p.0, p.1);
    }
    forall p | p in Reclaimable(fs, cs, w) ensures p in Reclaimable(after, cs, w) + Taken(fs.canon, rs) {
      StillThereOrTaken(fs, rs, p.0, p.1);
    }
  }

  /** A valid removal takes an entry nobody holds open and that may be opened. */
  lemma {:induction false} RemovalsAreFree(fs: Fs, rs: seq<Removal>)
    requires ValidRemovals(fs, rs)
    ensures forall x :: x in rs ==> !x.entry.locked && !x.entry.denied
  {
    if rs != [] {
      RemovalsAreFree(fs, rs[..|rs| - 1]);
      SnocParts(rs);
    }
  }

  /** A sweep that took only reclaimable files took only files it wanted. */
  lemma TakenWanted(fs: Fs, rs: seq<Removal>, cs: set<Path>, w: Wanted)
    requires Taken(fs.canon, rs) <= Reclaimable(fs, cs, w)
    ensures forall x :: x in rs ==> Wants(w, x.entry)
  {
    forall x | x in rs ensures Wants(w, x.entry) {
      assert (fs.canon(x.file.dir), x.entry) in Taken(fs.canon, rs);
    }
  }

  /** A sweep after `w` of the listing `files` of `dir`: if it removed only wanted listed
      files under their own names, it took only reclaimable files of `dir`; if it removed
      every wanted listed file nobody holds open, it took all of them. */
  lemma ListingSweep(fs: Fs, dir: Path, files: seq<FileEntry>, rs: seq<Removal>, w: Wanted)
    requires files == FilesOf(fs, dir) && ValidRemovals(fs, rs)
    ensures (forall x :: x in rs ==> x.file.dir == dir && x.entry in files && Wants(w, x.entry)) ==>
              Taken(fs.canon, rs) <= Reclaimable(fs, {fs.canon(dir)}, w)
    ensures (forall e :: e in files && Wants(w, e) && !e.locked && !e.denied ==> Removal(FileRef(dir, e.name), e) in rs) ==>
              Reclaimable(fs, {fs.canon(dir)}, w) <= Taken(fs.canon, rs)
  {
    RemovalsAreFree(fs, rs);
    if forall e :: e in files && Wants(w, e) && !e.locked && !e.denied ==> Removal(FileRef(dir, e.name), e) in rs {
      forall p | p in Reclaimable(fs, {fs.canon(dir)}, w) ensures p in Taken(fs.canon, rs) {
        assert Removal(FileRef(dir, p.1.name), p.1) in rs;
      }
    }
  }

  /** Two sweeps one after the other, the second on what the first left: if each took only
      reclaimable files of its directories, so do both together; if each took all of them,
      so do both together. */
  lemma ComposeSweeps(fs: Fs, a: seq<Removal>, b: seq<Removal>, dirsA: set<Path>, dirsB: set<Path>, w: Wanted)
    requires WellFormed(fs) && ValidRemovals(fs, a)
    ensures Taken(fs.canon, a) <= Reclaimable(fs, dirsA, w) && Taken(fs.canon, b) <= Reclaimable(RemoveAll(fs, a), dirsB, w) ==>
              Taken(fs.canon, a + b) <= Reclaimable(fs, dirsA + dirsB, w)
    ensures Reclaimable(fs, dirsA, w) <= Taken(fs.canon, a) && Reclaimable(RemoveAll(fs, a), dirsB, w) <= Taken(fs.canon, b) ==>
              Reclaimable(fs, dirsA + dirsB, w) <= Taken(fs.canon, a + b)
  {
    TakenAppend(fs.canon, a, b);
    ReclaimableUnion(fs, dirsA, dirsB, w);
    ReclaimableAfter(fs, a, dirsB, w);
  }

  /** The places the cleaners take from the environment. `localAppData` and `windir` are
      environment variables and may be unset; the others come from system calls that
      always answer. `systemDrive` is the root of `systemDirectory`. */
  datatype Env = Env(tempPath: Path, localAppData: Option<Path>, systemDirectory: Path, systemDrive: Path,
                     windir: Option<Path>, localAppDataFolder: Path, appDataFolder: Path)

  function LocalAppDataOrEmpty(env: Env): Path {
    match env.localAppData
    case None => ""
    case Some(p) => p
  }

  /** The three temporary directories both temporary-file cleaners start from. */
  function TempDirectories(env: Env): seq<Path> {
    [env.tempPath, Combine(LocalAppDataOrEmpty(env), "Temp"), Combine(env.systemDirectory, "temp")]
  }

  /** Adding an unvisited directory to a visited set leaves fewer directories unvisited. */
  lemma VisitShrinks(keys: set<Path>, visited: set<Path>, c: Path)
    requires c in keys && c !in visited
    ensures |keys - (visited + {c})| < |keys - visited|
  {
    assert keys - (visited + {c}) == (keys - visited) - {c};
  }
}
