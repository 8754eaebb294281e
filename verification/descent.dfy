/** The recursive directory walk of `TemporaryFilesCleaner.ProcessDirectoryAsync` and of
    `OldFilesCleaner`'s two walks. The walk keeps a visited set of canonical paths. A
    directory already in the set is skipped. Otherwise the directory is added, its files
    are handled, each subdirectory not in the set is walked, and the directory is removed
    again. The early returns (a missing directory, a failing file or subdirectory listing)
    skip that removal, so such a directory stays in the set. This module describes only
    what the walk does to the visited set; it depends on the directory structure alone. */
module Descent {
  import opened Common
  import opened FileSystem

  /** A directory the walk leaves through an early return: it does not exist, or listing
      its files or its subdirectories fails. */
  predicate LeftEarly(tree: map<Path, DirNode>, c: Path) {
    c !in tree || tree[c].filesFail || tree[c].subdirsFail
  }

  lemma {:induction false} SubsetSmaller(a: set<Path>, b: set<Path>)
    requires a <= b
    ensures |a| <= |b|
    decreases |a|
  {
    if a != {} {
      var x :| x in a;
      SubsetSmaller(a - {x}, b - {x});
    }
  }

  /** Growing a visited set never leaves more directories unvisited. */
  lemma FewerUnvisited(keys: set<Path>, visited: set<Path>, more: set<Path>)
    requires visited <= more
    ensures |keys - more| <= |keys - visited|
  {
    SubsetSmaller(keys - more, keys - visited);
  }

  /** The visited set after walking `dir` with `visited` on entry. */
  function After(tree: map<Path, DirNode>, canon: Path -> Path, dir: Path, visited: set<Path>): (out: set<Path>)
    ensures visited <= out
    decreases |tree.Keys - visited|, 0
  {
    var c := canon(dir);
    if c in visited then visited
    else if LeftEarly(tree, c) then visited + {c}
    else
      VisitShrinks(tree.Keys, visited, c);
      AfterSubdirs(tree, canon, tree[c].subdirs, visited + {c}) - {c}
  }

  /** The visited set after the subdirectory loop over `subs`: each subdirectory not in the
      set at its turn is walked, with the set as the earlier walks left it. */
  function AfterSubdirs(tree: map<Path, DirNode>, canon: Path -> Path, subs: seq<Path>, visited: set<Path>): (out: set<Path>)
    ensures visited <= out
    decreases |tree.Keys - visited|, 1, |subs|
  {
    if subs == [] then visited
    else
      var v := AfterSubdirs(tree, canon, subs[..|subs| - 1], visited);
      var last := subs[|subs| - 1];
      if canon(last) in v then v
      else
        FewerUnvisited(tree.Keys, visited, v);
        After(tree, canon, last, v)
  }

  /** `After` on a directory not yet visited: left early, or walked through. */
  lemma AfterUnfold(tree: map<Path, DirNode>, canon: Path -> Path, dir: Path, visited: set<Path>)
    requires canon(dir) !in visited
    ensures LeftEarly(tree, canon(dir)) ==> After(tree, canon, dir, visited) == visited + {canon(dir)}
    ensures !LeftEarly(tree, canon(dir)) ==>
      After(tree, canon, dir, visited) == AfterSubdirs(tree, canon, tree[canon(dir)].subdirs, visited + {canon(dir)}) - {canon(dir)}
  {
  }

  lemma AfterSubdirsSnoc(tree: map<Path, DirNode>, canon: Path -> Path, subs: seq<Path>, i: nat, visited: set<Path>)
    requires i < |subs|
    ensures AfterSubdirs(tree, canon, subs[..i + 1], visited) ==
      var v := AfterSubdirs(tree, canon, subs[..i], visited);
      if canon(subs[i]) in v then v else After(tree, canon, subs[i], v)
  {
    PrefixStep(subs, i);
  }

  /** The canonical directories whose files a walk of `dir` with `visited` on entry handles:
      none when it is visited, missing or its files cannot be listed; otherwise the directory
      itself and, unless its subdirectories cannot be listed, those the walks of its
      subdirectories handle. */
  function Reached(tree: map<Path, DirNode>, canon: Path -> Path, dir: Path, visited: set<Path>): set<Path>
    decreases |tree.Keys - visited|, 0
  {
    var c := canon(dir);
    if c in visited || c !in tree || tree[c].filesFail then {}
    else if tree[c].subdirsFail then {c}
    else
      VisitShrinks(tree.Keys, visited, c);
      {c} + ReachedSubdirs(tree, canon, tree[c].subdirs, visited + {c})
  }

  /** The directories the subdirectory loop over `subs` handles, each subdirectory walked
      with the visited set the earlier walks left. */
  function ReachedSubdirs(tree: map<Path, DirNode>, canon: Path -> Path, subs: seq<Path>, visited: set<Path>): set<Path>
    decreases |tree.Keys - visited|, 1, |subs|
  {
    if subs == [] then {}
    else
      var v := AfterSubdirs(tree, canon, subs[..|subs| - 1], visited);
      var last := subs[|subs| - 1];
      ReachedSubdirs(tree, canon, subs[..|subs| - 1], visited) +
      if canon(last) in v then {}
      else
        FewerUnvisited(tree.Keys, visited, v);
        Reached(tree, canon, last, v)
  }

  lemma ReachedSubdirsSnoc(tree: map<Path, DirNode>, canon: Path -> Path, subs: seq<Path>, i: nat, visited: set<Path>)
    requires i < |subs|
    ensures ReachedSubdirs(tree, canon, subs[..i + 1], visited) ==
      var v := AfterSubdirs(tree, canon, subs[..i], visited);
      ReachedSubdirs(tree, canon, subs[..i], visited) + if canon(subs[i]) in v then {} else Reached(tree, canon, subs[i], v)
  {
    PrefixStep(subs, i);
  }

  /** A loop stopped early has handled part of what the whole loop handles. */
  lemma {:induction false} ReachedSubdirsPrefix(tree: map<Path, DirNode>, canon: Path -> Path, subs: seq<Path>, i: nat, visited: set<Path>)
    requires i <= |subs|
    ensures ReachedSubdirs(tree, canon, subs[..i], visited) <= ReachedSubdirs(tree, canon, subs, visited)
    decreases |subs| - i
  {
    if i < |subs| {
      ReachedSubdirsPrefix(tree, canon, subs[..|subs| - 1], i, visited);
      assert subs[..|subs| - 1][..i] == subs[..i];
    } else {
      assert subs[..i] == subs;
    }
  }

  /** One turn of a subdirectory loop that sweeps: the walk of `subs[i]`, on what the
      earlier turns left, extends what the earlier turns took. Whatever the turn does, the
      loop has taken only reclaimable files of the directories the whole loop handles; if
      both took all they could, so has the loop up to this turn. */
  lemma SweepSubdirsStep(fs: Fs, removed: seq<Removal>, more: seq<Removal>, subs: seq<Path>, i: nat, visited: set<Path>, w: Wanted)
    requires i < |subs| && WellFormed(fs) && ValidRemovals(fs, removed)
    requires Taken(fs.canon, removed) <= Reclaimable(fs, ReachedSubdirs(fs.tree, fs.canon, subs[..i], visited), w)
    requires Taken(fs.canon, more) <=
      Reclaimable(RemoveAll(fs, removed), Reached(fs.tree, fs.canon, subs[i], AfterSubdirs(fs.tree, fs.canon, subs[..i], visited)), w)
    ensures Taken(fs.canon, removed + more) <= Reclaimable(fs, ReachedSubdirs(fs.tree, fs.canon, subs[..i + 1], visited), w)
    ensures Taken(fs.canon, removed + more) <= Reclaimable(fs, ReachedSubdirs(fs.tree, fs.canon, subs, visited), w)
    ensures Reclaimable(fs, ReachedSubdirs(fs.tree, fs.canon, subs[..i], visited), w) <= Taken(fs.canon, removed) &&
            Reclaimable(RemoveAll(fs, removed), Reached(fs.tree, fs.canon, subs[i], AfterSubdirs(fs.tree, fs.canon, subs[..i], visited)), w) <=
              Taken(fs.canon, more) ==>
            Reclaimable(fs, ReachedSubdirs(fs.tree, fs.canon, subs[..i + 1], visited), w) <= Taken(fs.canon, removed + more)
  {
    var v := AfterSubdirs(fs.tree, fs.canon, subs[..i], visited);
    var sofar := ReachedSubdirs(fs.tree, fs.canon, subs[..i], visited);
    var here := Reached(fs.tree, fs.canon, subs[i], v);
    ReachedSubdirsSnoc(fs.tree, fs.canon, subs, i, visited);
    assert ReachedSubdirs(fs.tree, fs.canon, subs[..i + 1], visited) == sofar + here;
    ComposeSweeps(fs, removed, more, sofar, here, w);
    ReachedSubdirsPrefix(fs.tree, fs.canon, subs, i + 1, visited);
    ReclaimableMono(fs, sofar + here, ReachedSubdirs(fs.tree, fs.canon, subs, visited), w);
  }

  /** The directories the walks of `roots` handle, each with a fresh visited set. */
  function Swept(tree: map<Path, DirNode>, canon: Path -> Path, roots: seq<Path>): set<Path> {
    if roots == [] then {}
    else Swept(tree, canon, roots[..|roots| - 1]) + Reached(tree, canon, roots[|roots| - 1], {})
  }

  lemma SweptSnoc(tree: map<Path, DirNode>, canon: Path -> Path, roots: seq<Path>, k: nat)
    requires k < |roots|
    ensures Swept(tree, canon, roots[..k + 1]) == Swept(tree, canon, roots[..k]) + Reached(tree, canon, roots[k], {})
  {
    PrefixStep(roots, k);
  }

  lemma {:induction false} SweptPrefix(tree: map<Path, DirNode>, canon: Path -> Path, roots: seq<Path>, k: nat)
    requires k <= |roots|
    ensures Swept(tree, canon, roots[..k]) <= Swept(tree, canon, roots)
    decreases |roots| - k
  {
    if k < |roots| {
      SweptPrefix(tree, canon, roots[..|roots| - 1], k);
      assert roots[..|roots| - 1][..k] == roots[..k];
    } else {
      assert roots[..k] == roots;
    }
  }

  /** What the walk adds to the visited set is made of directories it left early. */
  lemma {:induction false} OnlyEarlyExitsRemain(tree: map<Path, DirNode>, canon: Path -> Path, dir: Path, visited: set<Path>, p: Path)
    requires p in After(tree, canon, dir, visited) && p !in visited
    ensures LeftEarly(tree, p)
    decreases |tree.Keys - visited|, 0
  {
    var c := canon(dir);
    if !LeftEarly(tree, c) {
      VisitShrinks(tree.Keys, visited, c);
      OnlyEarlyExitsRemainSubdirs(tree, canon, tree[c].subdirs, visited + {c}, p);
    }
  }

  lemma {:induction false} OnlyEarlyExitsRemainSubdirs(tree: map<Path, DirNode>, canon: Path -> Path, subs: seq<Path>, visited: set<Path>, p: Path)
    requires p in AfterSubdirs(tree, canon, subs, visited) && p !in visited
    ensures LeftEarly(tree, p)
    decreases |tree.Keys - visited|, 1, |subs|
  {
    var v := AfterSubdirs(tree, canon, subs[..|subs| - 1], visited);
    var last := subs[|subs| - 1];
    if p in v {
      OnlyEarlyExitsRemainSubdirs(tree, canon, subs[..|subs| - 1], visited, p);
    } else {
      FewerUnvisited(tree.Keys, visited, v);
      OnlyEarlyExitsRemain(tree, canon, last, v, p);
    }
  }

  /** No early exit is possible: every directory lists, and every subdirectory link leads
      to an existing directory. */
  ghost predicate Intact(tree: map<Path, DirNode>, canon: Path -> Path) {
    forall c :: c in tree ==>
      !tree[c].filesFail && !tree[c].subdirsFail && forall s :: s in tree[c].subdirs ==> canon(s) in tree
  }

  /** In an intact tree every walk of an existing directory hands the visited set back as it
      received it, as the removal at the end of the walk intends. */
  lemma {:induction false} IntactRestores(tree: map<Path, DirNode>, canon: Path -> Path, dir: Path, visited: set<Path>)
    requires Intact(tree, canon) && canon(dir) in tree
    ensures After(tree, canon, dir, visited) == visited
    decreases |tree.Keys - visited|, 0
  {
    var c := canon(dir);
    if c !in visited {
      VisitShrinks(tree.Keys, visited, c);
      IntactRestoresSubdirs(tree, canon, tree[c].subdirs, visited + {c});
    }
  }

  lemma {:induction false} IntactRestoresSubdirs(tree: map<Path, DirNode>, canon: Path -> Path, subs: seq<Path>, visited: set<Path>)
    requires Intact(tree, canon) && forall s :: s in subs ==> canon(s) in tree
    ensures AfterSubdirs(tree, canon, subs, visited) == visited
    decreases |tree.Keys - visited|, 1, |subs|
  {
    if subs != [] {
      var init := subs[..|subs| - 1];
      assert forall s :: s in init ==> s in subs;
      IntactRestoresSubdirs(tree, canon, init, visited);
      if canon(subs[|subs| - 1]) !in visited {
        IntactRestores(tree, canon, subs[|subs| - 1], visited);
      }
    }
  }

  /** One turn of a loop over roots that sweeps: the walk of `roots[k]` with a fresh visited
      set, on what the earlier turns left, extends what they took, in both directions as in
      `SweepSubdirsStep`. */
  lemma SweepRootsStep(fs: Fs, walked: seq<Removal>, more: seq<Removal>, roots: seq<Path>, k: nat, w: Wanted)
    requires k < |roots| && WellFormed(fs) && ValidRemovals(fs, walked)
    requires Taken(fs.canon, walked) <= Reclaimable(fs, Swept(fs.tree, fs.canon, roots[..k]), w)
    requires Taken(fs.canon, more) <= Reclaimable(RemoveAll(fs, walked), Reached(fs.tree, fs.canon, roots[k], {}), w)
    ensures Taken(fs.canon, walked + more) <= Reclaimable(fs, Swept(fs.tree, fs.canon, roots[..k + 1]), w)
    ensures Taken(fs.canon, walked + more) <= Reclaimable(fs, Swept(fs.tree, fs.canon, roots), w)
    ensures Reclaimable(fs, Swept(fs.tree, fs.canon, roots[..k]), w) <= Taken(fs.canon, walked) &&
            Reclaimable(RemoveAll(fs, walked), Reached(fs.tree, fs.canon, roots[k], {}), w) <= Taken(fs.canon, more) ==>
            Reclaimable(fs, Swept(fs.tree, fs.canon, roots[..k + 1]), w) <= Taken(fs.canon, walked + more)
  {
    var sofar := Swept(fs.tree, fs.canon, roots[..k]);
    var here := Reached(fs.tree, fs.canon, roots[k], {});
    SweptSnoc(fs.tree, fs.canon, roots, k);
    ComposeSweeps(fs, walked, more, sofar, here, w);
    SweptPrefix(fs.tree, fs.canon, roots, k + 1);
    ReclaimableMono(fs, sofar + here, Swept(fs.tree, fs.canon, roots), w);
  }

  /** A loop over roots stopped before `roots[k]` has taken only reclaimable files of the
      directories the whole loop handles. */
  lemma SweepRootsStopped(fs: Fs, walked: seq<Removal>, roots: seq<Path>, k: nat, w: Wanted)
    requires k <= |roots|
    requires Taken(fs.canon, walked) <= Reclaimable(fs, Swept(fs.tree, fs.canon, roots[..k]), w)
    ensures Taken(fs.canon, walked) <= Reclaimable(fs, Swept(fs.tree, fs.canon, roots), w)
  {
    SweptPrefix(fs.tree, fs.canon, roots, k);
    ReclaimableMono(fs, Swept(fs.tree, fs.canon, roots[..k]), Swept(fs.tree, fs.canon, roots), w);
  }
}
