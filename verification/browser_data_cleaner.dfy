/** `BrowserDataCleaner`: moves the history and cookie databases of Chrome, Firefox and
    Edge to the recycle bin. Chrome and Edge keep them as `History` and `Cookies` in their
    `Default` profile; Firefox keeps `places.sqlite` and `cookies.sqlite` in every profile
    directory. Each target's `FileInfo` is created before the move and its length read
    after it, so a successful move ends its vendor's step with `FileNotFoundException`. */
module Browser {
  import opened Common
  import opened FileSystem
  import opened FileOperations
  import opened Reclaim
  import FileUtils

  function ChromeProfile(env: Env): Path {
    Combine(env.localAppDataFolder, "Google\\Chrome\\User Data\\Default")
  }

  function EdgeProfile(env: Env): Path {
    Combine(env.localAppDataFolder, "Microsoft\\Edge\\User Data\\Default")
  }

  function FirefoxRoot(env: Env): Path {
    Combine(env.appDataFolder, "Mozilla\\Firefox\\Profiles")
  }

  /** The two databases of a Chromium profile and of a Firefox profile. */
  function HistoryOf(profile: Path): FileRef { FileRef(profile, "History") }

  function CookiesOf(profile: Path): FileRef { FileRef(profile, "Cookies") }

  function PlacesOf(profile: Path): FileRef { FileRef(profile, "places.sqlite") }

  function FirefoxCookiesOf(profile: Path): FileRef { FileRef(profile, "cookies.sqlite") }

  /** `History` then `Cookies` in a Chromium profile directory that exists. */
  function ChromiumTargets(fs: Fs, profile: Path): seq<FileRef> {
    if DirExists(fs, profile) then [HistoryOf(profile), CookiesOf(profile)] else []
  }

  /** `places.sqlite` then `cookies.sqlite` in each profile directory, in listing order. */
  function FirefoxTargets(profiles: seq<Path>): seq<FileRef> {
    if profiles == [] then []
    else
      var p := profiles[|profiles| - 1];
      FirefoxTargets(profiles[..|profiles| - 1]) + [PlacesOf(p), FirefoxCookiesOf(p)]
  }

  /** `Directory.GetDirectories` on the Firefox profile root throws. */
  predicate FirefoxListingFails(fs: Fs, env: Env) {
    DirExists(fs, FirefoxRoot(env)) && Node(fs, FirefoxRoot(env)).subdirsFail
  }

  /** The Firefox profile directories, when the profile root exists and lists. */
  function FirefoxProfiles(fs: Fs, env: Env): seq<Path> {
    if DirExists(fs, FirefoxRoot(env)) && !Node(fs, FirefoxRoot(env)).subdirsFail
    then Node(fs, FirefoxRoot(env)).subdirs else []
  }

  /** The three vendors, in the order the cleaner visits them. */
  datatype Vendor = Chrome | Firefox | Edge

  const Vendors: seq<Vendor> := [Chrome, Firefox, Edge]

  /** The files a vendor's step looks at. */
  function VendorTargets(fs: Fs, env: Env, v: Vendor): seq<FileRef> {
    match v
    case Chrome => ChromiumTargets(fs, ChromeProfile(env))
    case Firefox => FirefoxTargets(FirefoxProfiles(fs, env))
    case Edge => ChromiumTargets(fs, EdgeProfile(env))
  }

  /** Every file the cleaner looks at, vendor by vendor. */
  function Targets(fs: Fs, env: Env): seq<FileRef> {
    VendorTargets(fs, env, Chrome) + VendorTargets(fs, env, Firefox) + VendorTargets(fs, env, Edge)
  }

  /** A step removed at most one file, and only one of its targets. */
  ghost predicate TakesAtMostOne(rs: seq<Removal>, targets: seq<FileRef>) {
    |rs| <= 1 && forall x :: x in rs ==> x.file in targets
  }

  /** What an undisturbed estimate reports: the summed sizes of the targets that exist. */
  function EstimateTotal(fs: Fs, env: Env): nat {
    FileUtils.TotalSize(fs, Targets(fs, env))
  }

  /** Some target could be moved: it exists and nobody holds it open. */
  predicate AnyRemovable(fs: Fs, targets: seq<FileRef>) {
    exists f :: f in targets && OpenExclusive(fs, f) == Opened
  }

  lemma AnyRemovableAppend(fs: Fs, a: seq<FileRef>, b: seq<FileRef>)
    ensures AnyRemovable(fs, a + b) <==> AnyRemovable(fs, a) || AnyRemovable(fs, b)
  {
    if AnyRemovable(fs, a + b) {
      var f :| f in a + b && OpenExclusive(fs, f) == Opened;
      assert f in a || f in b;
    }
    if AnyRemovable(fs, a) {
      var f :| f in a && OpenExclusive(fs, f) == Opened;
      assert f in a + b;
    }
    if AnyRemovable(fs, b) {
      var f :| f in b && OpenExclusive(fs, f) == Opened;
      assert f in a + b;
    }
  }

  /** `f` is the first of `targets` that can be moved: no target before it can. */
  ghost predicate FirstRemovable(fs: Fs, targets: seq<FileRef>, f: FileRef) {
    exists k :: 0 <= k < |targets| && targets[k] == f && OpenExclusive(fs, f) == Opened && !AnyRemovable(fs, targets[..k])
  }

  /** The first removable target of a stretch of a longer list is the first removable
      target of the whole list when nothing before the stretch can be moved. */
  lemma FirstRemovableWithin(fs: Fs, before: seq<FileRef>, stretch: seq<FileRef>, targets: seq<FileRef>, f: FileRef)
    requires |before| + |stretch| <= |targets| && targets[..|before| + |stretch|] == before + stretch
    requires !AnyRemovable(fs, before) && FirstRemovable(fs, stretch, f)
    ensures FirstRemovable(fs, targets, f)
  {
    var j :| 0 <= j < |stretch| && stretch[j] == f && OpenExclusive(fs, f) == Opened && !AnyRemovable(fs, stretch[..j]);
    var k := |before| + j;
    assert targets[k] == (before + stretch)[k];
    assert targets[..k] == before + stretch[..j] by {
      assert targets[..k] == targets[..|before| + |stretch|][..k];
    }
    AnyRemovableAppend(fs, before, stretch[..j]);
  }

  /** The targets of the first `i` profiles begin the list of all of them. */
  lemma {:induction false} FirefoxTargetsBegin(profiles: seq<Path>, i: nat)
    requires i <= |profiles|
    ensures |FirefoxTargets(profiles[..i])| <= |FirefoxTargets(profiles)|
    ensures FirefoxTargets(profiles)[..|FirefoxTargets(profiles[..i])|] == FirefoxTargets(profiles[..i])
    decreases |profiles| - i
  {
    if i < |profiles| {
      FirefoxTargetsSnoc(profiles, i);
      FirefoxTargetsBegin(profiles, i + 1);
      var short, long := FirefoxTargets(profiles[..i]), FirefoxTargets(profiles[..i + 1]);
      assert long[..|short|] == short;
      assert FirefoxTargets(profiles)[..|short|] == FirefoxTargets(profiles)[..|long|][..|short|];
    } else {
      PrefixAll(profiles, i);
    }
  }

  /** One more profile adds its two targets to the end of the list. */
  lemma FirefoxTargetsSnoc(profiles: seq<Path>, i: nat)
    requires i < |profiles|
    ensures FirefoxTargets(profiles[..i + 1]) ==
      FirefoxTargets(profiles[..i]) + [PlacesOf(profiles[i]), FirefoxCookiesOf(profiles[i])]
  {
    PrefixStep(profiles, i);
  }

  lemma PairSize(fs: Fs, before: seq<FileRef>, f: FileRef, g: FileRef)
    ensures FileUtils.TotalSize(fs, before + [f, g]) ==
      FileUtils.TotalSize(fs, before) + FileUtils.TotalSize(fs, [f]) + FileUtils.TotalSize(fs, [g])
  {
    FileUtils.TotalSizeAppend(fs, [f], [g]);
    assert [f] + [g] == [f, g];
    FileUtils.TotalSizeAppend(fs, before, [f, g]);
  }

  lemma PrefixTargets(profiles: seq<Path>, i: nat)
    requires i <= |profiles|
    ensures forall f :: f in FirefoxTargets(profiles[..i]) ==> f in FirefoxTargets(profiles)
  {
    forall f | f in FirefoxTargets(profiles[..i]) ensures f in FirefoxTargets(profiles) {
      FirefoxTargetsPrefix(profiles, i, f);
    }
  }

  lemma {:induction false} FirefoxTargetsPrefix(profiles: seq<Path>, i: nat, f: FileRef)
    requires i <= |profiles| && f in FirefoxTargets(profiles[..i])
    ensures f in FirefoxTargets(profiles)
    decreases |profiles| - i
  {
    if i < |profiles| {
      FirefoxTargetsSnoc(profiles, i);
      FirefoxTargetsPrefix(profiles, i + 1, f);
    } else {
      PrefixAll(profiles, i);
    }
  }

  /** Some target can be moved exactly when some vendor has one. */
  lemma RemovableByVendor(fs: Fs, env: Env)
    ensures AnyRemovable(fs, Targets(fs, env)) <==>
      AnyRemovable(fs, VendorTargets(fs, env, Chrome)) || AnyRemovable(fs, VendorTargets(fs, env, Firefox)) ||
      AnyRemovable(fs, VendorTargets(fs, env, Edge))
  {
    var a, b, c := VendorTargets(fs, env, Chrome), VendorTargets(fs, env, Firefox), VendorTargets(fs, env, Edge);
    AnyRemovableAppend(fs, a + b, c);
    AnyRemovableAppend(fs, a, b);
  }

  /** The estimate adds up vendor by vendor, and a vendor whose directory is missing
      contributes nothing. */
  lemma EstimateByVendor(fs: Fs, env: Env)
    ensures EstimateTotal(fs, env) ==
      FileUtils.TotalSize(fs, VendorTargets(fs, env, Chrome)) + FileUtils.TotalSize(fs, VendorTargets(fs, env, Firefox)) +
      FileUtils.TotalSize(fs, VendorTargets(fs, env, Edge))
    ensures !DirExists(fs, ChromeProfile(env)) ==> FileUtils.TotalSize(fs, VendorTargets(fs, env, Chrome)) == 0
    ensures !DirExists(fs, FirefoxRoot(env)) ==> FileUtils.TotalSize(fs, VendorTargets(fs, env, Firefox)) == 0
    ensures !DirExists(fs, EdgeProfile(env)) ==> FileUtils.TotalSize(fs, VendorTargets(fs, env, Edge)) == 0
  {
    var a, b, c := VendorTargets(fs, env, Chrome), VendorTargets(fs, env, Firefox), VendorTargets(fs, env, Edge);
    FileUtils.TotalSizeAppend(fs, a + b, c);
    FileUtils.TotalSizeAppend(fs, a, b);
  }

  /** Reclaiming files changes no directory, so each vendor's targets, and whether its
      listing fails, stay the same. */
  lemma TargetsAfterRemovals(fs: Fs, env: Env, rs: seq<Removal>, v: Vendor)
    ensures VendorTargets(RemoveAll(fs, rs), env, v) == VendorTargets(fs, env, v)
    ensures VendorListing(RemoveAll(fs, rs), env, v) == VendorListing(fs, env, v)
  {
    assert RemoveAll(fs, rs).tree == fs.tree && RemoveAll(fs, rs).canon == fs.canon;
  }

  /** The size of one target, if it exists (lines 112-123 and the like): `File.Exists`,
      then `Length`, which cannot fail on a file that exists. */
  method ExistingSize(fs: Fs, f: FileRef) returns (n: nat)
    ensures n == FileUtils.TotalSize(fs, [f])
    ensures FileExists(fs, f) <==> FileLength(fs, f) == Some(n)
  {
    AppendEmpty([f]);
    n := 0;
    if FileExists(fs, f) {
      match FileLength(fs, f)
      case Some(len) => n := len;
      case None => assert false;
    }
  }

  /** `EstimateChromeDataSizeAsync` and `EstimateEdgeDataSizeAsync`: the sizes of the
      profile's targets that exist, 0 if the profile directory is missing. */
  method EstimateChromiumSize(fs: Fs, profile: Path) returns (total: nat)
    ensures total == FileUtils.TotalSize(fs, ChromiumTargets(fs, profile))
  {
    total := 0;
    if DirExists(fs, profile) {
      var history := ExistingSize(fs, HistoryOf(profile));
      var cookies := ExistingSize(fs, CookiesOf(profile));
      total := total + history + cookies;
      FileUtils.TotalSizeAppend(fs, [HistoryOf(profile)], [CookiesOf(profile)]);
    }
  }

  /** `EstimateFirefoxDataSizeAsync`: a failing profile listing and a cancellation check
      per profile both escape; otherwise the sizes of every profile's targets that exist. */
  method EstimateFirefoxSize(fs: Fs, env: Env, token: CancellationToken, polls: nat)
    returns (r: Outcome<nat>, pollsOut: nat)
    ensures polls <= pollsOut
    ensures r.Done? ==> r.value == FileUtils.TotalSize(fs, VendorTargets(fs, env, Firefox))
    ensures r.Threw? ==> (r.error == OperationCanceled && CancellationRequested(token, pollsOut)) ||
                         (r.error == UnauthorizedAccess(FirefoxRoot(env)) && FirefoxListingFails(fs, env))
    ensures FirefoxListingFails(fs, env) ==> r == Threw(UnauthorizedAccess(FirefoxRoot(env)))
  {
    pollsOut := polls;
    var root := FirefoxRoot(env);
    if !DirExists(fs, root) {
      return Done(0), pollsOut;
    }
    if Node(fs, root).subdirsFail {
      return Threw(UnauthorizedAccess(root)), pollsOut;
    }
    var profiles := Node(fs, root).subdirs;
    var total := 0;
    var i := 0;
    while i < |profiles|
      invariant 0 <= i <= |profiles| && polls <= pollsOut
      invariant total == FileUtils.TotalSize(fs, FirefoxTargets(profiles[..i]))
    {
      if CancellationRequested(token, pollsOut) {
        return Threw(OperationCanceled), pollsOut;
      }
      pollsOut := pollsOut + 1;
      var places := ExistingSize(fs, PlacesOf(profiles[i]));
      var cookies := ExistingSize(fs, FirefoxCookiesOf(profiles[i]));
      FirefoxTargetsSnoc(profiles, i);
      PairSize(fs, FirefoxTargets(profiles[..i]), PlacesOf(profiles[i]), FirefoxCookiesOf(profiles[i]));
      total := total + places + cookies;
      i := i + 1;
    }
    PrefixAll(profiles, i);
    r := Done(total);
  }

  /** The error a failing Firefox profile listing throws, if it fails. */
  function FirefoxListing(fs: Fs, env: Env): Option<Exn> {
    if FirefoxListingFails(fs, env) then Some(UnauthorizedAccess(FirefoxRoot(env))) else None
  }

  /** The error a vendor's step throws before it looks at any target: only the Firefox step
      lists a directory. */
  function VendorListing(fs: Fs, env: Env, v: Vendor): Option<Exn> {
    if v == Firefox then FirefoxListing(fs, env) else None
  }

  /** How a vendor step ended, against the state it started in: it removed at most one of
      its targets, the first one that could be moved, and then threw `FileNotFoundException`; it ended
      normally only when none of them could be moved; a failing listing `listing` ends it
      at once; and it threw without removing anything only when cancelled or when its
      listing failed. */
  ghost predicate StepReport(fs: Fs, targets: seq<FileRef>, rs: seq<Removal>, r: Outcome<()>, requested: bool, listing: Option<Exn>) {
    TakesAtMostOne(rs, targets) &&
    (rs != [] ==> r.Threw? && r.error.FileNotFound? && FirstRemovable(fs, targets, rs[0].file)) &&
    (r.Done? ==> rs == [] && !AnyRemovable(fs, targets)) &&
    (listing.Some? ==> r == Threw(listing.value)) &&
    (r.Threw? && rs == [] ==> (r.error == OperationCanceled && requested) || listing == Some(r.error))
  }

  /** Without cancellation and without a listing failure, a step removes a file exactly
      when one of its targets can be moved, and ends normally exactly when none can. */
  lemma StepRemovesIffRemovable(fs: Fs, targets: seq<FileRef>, rs: seq<Removal>, r: Outcome<()>)
    requires StepReport(fs, targets, rs, r, false, None)
    ensures rs != [] <==> AnyRemovable(fs, targets)
    ensures r.Done? <==> !AnyRemovable(fs, targets)
  {
    if rs != [] {
      var k :| 0 <= k < |targets| && targets[k] == rs[0].file && OpenExclusive(fs, rs[0].file) == Opened &&
               !AnyRemovable(fs, targets[..k]);
      assert targets[k] in targets;
    }
    if AnyRemovable(fs, targets) {
      assert !r.Done?;
      assert rs != [];
    }
  }

  /** A step whose listing fails throws that error and removes nothing, and when it is the
      Firefox profile listing that fails there are no Firefox targets to move. */
  lemma StepListingFails(fs: Fs, env: Env, targets: seq<FileRef>, rs: seq<Removal>, r: Outcome<()>, requested: bool)
    requires FirefoxListingFails(fs, env)
    requires StepReport(fs, targets, rs, r, requested, FirefoxListing(fs, env))
    ensures rs == [] && r == Threw(UnauthorizedAccess(FirefoxRoot(env)))
    ensures VendorTargets(fs, env, Firefox) == [] && !AnyRemovable(fs, VendorTargets(fs, env, Firefox))
  {
  }

  /** Each vendor's targets, in vendor order. */
  function TargetList(fs: Fs, env: Env): (ts: seq<seq<FileRef>>)
    ensures |ts| == |Vendors| && forall k :: 0 <= k < |Vendors| ==> ts[k] == VendorTargets(fs, env, Vendors[k])
  {
    [VendorTargets(fs, env, Chrome), VendorTargets(fs, env, Firefox), VendorTargets(fs, env, Edge)]
  }

  /** Each vendor's listing error, in vendor order. */
  function ListingList(fs: Fs, env: Env): (ls: seq<Option<Exn>>)
    ensures |ls| == |Vendors| && forall k :: 0 <= k < |Vendors| ==> ls[k] == VendorListing(fs, env, Vendors[k])
  {
    [VendorListing(fs, env, Chrome), VendorListing(fs, env, Firefox), VendorListing(fs, env, Edge)]
  }

  /** The reports of the steps run so far, in vendor order, each against the state the
      steps before it left, with `ts[k]` and `ls[k]` the targets and the listing error of
      the `k`-th step. */
  ghost predicate StepsReported(fs: Fs, ts: seq<seq<FileRef>>, ls: seq<Option<Exn>>, steps: seq<seq<Removal>>,
                                outcomes: seq<Outcome<()>>, requested: bool)
    decreases |steps|
  {
    |steps| == |outcomes| <= |ts| && |steps| <= |ls| &&
    (steps == [] ||
     var k := |steps| - 1;
     StepsReported(fs, ts, ls, steps[..k], outcomes[..k], requested) &&
     StepReport(RemoveAll(fs, Flatten(steps[..k])), ts[k], steps[k], outcomes[k], requested, ls[k]))
  }

  /** The next step's report, against the state the earlier steps left, extends the
      reports, also when cancellation was requested meanwhile. */
  lemma StepsReportedNext(fs: Fs, ts: seq<seq<FileRef>>, ls: seq<Option<Exn>>, steps: seq<seq<Removal>>,
                          outcomes: seq<Outcome<()>>, done: seq<Removal>, rs: seq<Removal>, r: Outcome<()>,
                          requested: bool, later: bool)
    requires StepsReported(fs, ts, ls, steps, outcomes, requested) && (requested ==> later)
    requires |steps| < |ts| && |steps| < |ls| && done == Flatten(steps)
    requires StepReport(RemoveAll(fs, done), ts[|steps|], rs, r, later, ls[|steps|])
    ensures StepsReported(fs, ts, ls, steps + [rs], outcomes + [r], later)
  {
    StepsReportedLater(fs, ts, ls, steps, outcomes, requested, later);
    assert (steps + [rs])[..|steps|] == steps;
    assert (outcomes + [r])[..|outcomes|] == outcomes;
  }

  /** Reports made before cancellation was requested still hold after. */
  lemma {:induction false} StepsReportedLater(fs: Fs, ts: seq<seq<FileRef>>, ls: seq<Option<Exn>>, steps: seq<seq<Removal>>,
                                              outcomes: seq<Outcome<()>>, requested: bool, later: bool)
    requires StepsReported(fs, ts, ls, steps, outcomes, requested) && (requested ==> later)
    ensures StepsReported(fs, ts, ls, steps, outcomes, later)
    decreases |steps|
  {
    if steps != [] {
      StepsReportedLater(fs, ts, ls, steps[..|steps| - 1], outcomes[..|outcomes| - 1], requested, later);
    }
  }

  /** The report of the `i`-th step, against the state the steps before it left. */
  lemma {:induction false} StepsReportedAt(fs: Fs, ts: seq<seq<FileRef>>, ls: seq<Option<Exn>>, steps: seq<seq<Removal>>,
                                           outcomes: seq<Outcome<()>>, requested: bool, i: nat)
    requires StepsReported(fs, ts, ls, steps, outcomes, requested) && i < |steps|
    ensures StepReport(RemoveAll(fs, Flatten(steps[..i])), ts[i], steps[i], outcomes[i], requested, ls[i])
    decreases |steps|
  {
    var k := |steps| - 1;
    if i < k {
      StepsReportedAt(fs, ts, ls, steps[..k], outcomes[..k], requested, i);
      assert steps[..k][..i] == steps[..i];
    }
  }

  /** Every step ended normally. */
  predicate AllDone(outcomes: seq<Outcome<()>>) {
    forall i :: 0 <= i < |outcomes| ==> outcomes[i].Done?
  }

  lemma AllDoneSnoc(outcomes: seq<Outcome<()>>, r: Outcome<()>)
    ensures AllDone(outcomes + [r]) <==> AllDone(outcomes) && r.Done?
  {
    if AllDone(outcomes + [r]) {
      assert (outcomes + [r])[|outcomes|] == r;
      forall i | 0 <= i < |outcomes| ensures outcomes[i].Done? {
        assert (outcomes + [r])[i] == outcomes[i];
      }
    }
  }

  lemma FlattenThree(steps: seq<seq<Removal>>)
    requires |steps| == 3
    ensures Flatten(steps[..0]) == [] && Flatten(steps[..1]) == steps[0] && Flatten(steps[..2]) == steps[0] + steps[1]
    ensures Flatten(steps) == steps[0] + steps[1] + steps[2]
  {
    assert steps[..1] == steps[..0] + [steps[0]];
    FlattenSnoc(steps[..0], steps[0]);
    assert steps[..2] == steps[..1] + [steps[1]];
    FlattenSnoc(steps[..1], steps[1]);
    assert steps == steps[..2] + [steps[2]];
    FlattenSnoc(steps[..2], steps[2]);
  }

  /** What `CleanAsync` reports, against the state it started in, with `steps[k]` what the
      step of `Vendors[k]` removed: each step removed at most one of its targets, the first
      one that could be moved at its turn; `true` means all three steps ran, nothing was
      removed and no target could be moved; a failing Firefox profile listing means
      `false`; and without cancellation all three steps ran, also after a failing Firefox
      listing, `true` means exactly that the Firefox listing did not fail and no target
      could be moved, and each step removed a file exactly when one of its targets could
      be moved at its turn (a failing Firefox listing leaves Firefox no targets). */
  ghost predicate CleanReport(fs: Fs, env: Env, steps: seq<seq<Removal>>, ok: bool, requested: bool) {
    |steps| <= |Vendors| &&
    (forall k :: 0 <= k < |steps| ==>
       TakesAtMostOne(steps[k], VendorTargets(fs, env, Vendors[k])) &&
       (steps[k] != [] ==> FirstRemovable(RemoveAll(fs, Flatten(steps[..k])), VendorTargets(fs, env, Vendors[k]), steps[k][0].file))) &&
    (ok ==> |steps| == |Vendors| && Flatten(steps) == [] && !AnyRemovable(fs, Targets(fs, env))) &&
    (FirefoxListingFails(fs, env) ==> !ok) &&
    (!requested ==>
       |steps| == |Vendors| && (ok <==> !FirefoxListingFails(fs, env) && !AnyRemovable(fs, Targets(fs, env))) &&
       forall k :: 0 <= k < |steps| ==>
         (steps[k] != [] <==> AnyRemovable(RemoveAll(fs, Flatten(steps[..k])), VendorTargets(fs, env, Vendors[k]))))
  }

  /** One vendor's step, run after the removals `done`: it takes at most one target, the
      first that could be moved; without cancellation it moves a file exactly when one of
      its targets could be moved, also when its listing failed. */
  lemma StepMeaning(fs: Fs, env: Env, done: seq<Removal>, v: Vendor, rs: seq<Removal>, r: Outcome<()>, requested: bool)
    requires StepReport(RemoveAll(fs, done), VendorTargets(fs, env, v), rs, r, requested, VendorListing(fs, env, v))
    ensures TakesAtMostOne(rs, VendorTargets(fs, env, v))
    ensures rs != [] ==> FirstRemovable(RemoveAll(fs, done), VendorTargets(fs, env, v), rs[0].file)
    ensures !requested ==> (rs != [] <==> AnyRemovable(RemoveAll(fs, done), VendorTargets(fs, env, v)))
  {
    var now := RemoveAll(fs, done);
    if !requested {
      if VendorListing(fs, env, v).None? {
        StepRemovesIffRemovable(now, VendorTargets(fs, env, v), rs, r);
      } else {
        TargetsAfterRemovals(fs, env, done, Firefox);
        StepListingFails(now, env, VendorTargets(fs, env, Firefox), rs, r, requested);
      }
    }
  }

  /** The steps' reports make up the report of the run: `ok` is whether every step that ran
      ended normally, and the run stopped early only on cancellation. */
  lemma CleanMeaning(fs: Fs, env: Env, steps: seq<seq<Removal>>, outcomes: seq<Outcome<()>>, ok: bool, requested: bool)
    requires StepsReported(fs, TargetList(fs, env), ListingList(fs, env), steps, outcomes, requested)
    requires ok == AllDone(outcomes)
    requires |steps| == |Vendors| || (requested && !ok)
    ensures CleanReport(fs, env, steps, ok, requested)
  {
    forall k | 0 <= k < |steps|
      ensures TakesAtMostOne(steps[k], VendorTargets(fs, env, Vendors[k]))
      ensures steps[k] != [] ==> FirstRemovable(RemoveAll(fs, Flatten(steps[..k])), VendorTargets(fs, env, Vendors[k]), steps[k][0].file)
      ensures !requested ==>
        (steps[k] != [] <==> AnyRemovable(RemoveAll(fs, Flatten(steps[..k])), VendorTargets(fs, env, Vendors[k])))
    {
      StepsReportedAt(fs, TargetList(fs, env), ListingList(fs, env), steps, outcomes, requested, k);
      StepMeaning(fs, env, Flatten(steps[..k]), Vendors[k], steps[k], outcomes[k], requested);
    }
    if |steps| == |Vendors| {
      FlattenThree(steps);
      StepsReportedAt(fs, TargetList(fs, env), ListingList(fs, env), steps, outcomes, requested, 0);
      StepsReportedAt(fs, TargetList(fs, env), ListingList(fs, env), steps, outcomes, requested, 1);
      StepsReportedAt(fs, TargetList(fs, env), ListingList(fs, env), steps, outcomes, requested, 2);
      RemovableByVendor(fs, env);
      if ok {
        assert outcomes[0].Done? && outcomes[1].Done? && outcomes[2].Done?;
      }
      if FirefoxListingFails(fs, env) {
        assert !outcomes[1].Done?;
      }
      if !requested && !FirefoxListingFails(fs, env) && !AnyRemovable(fs, Targets(fs, env)) {
        assert VendorListing(fs, env, Chrome).None? && VendorListing(fs, env, Firefox).None? && VendorListing(fs, env, Edge).None?;
        StepRemovesIffRemovable(fs, VendorTargets(fs, env, Chrome), steps[0], outcomes[0]);
        StepRemovesIffRemovable(RemoveAll(fs, steps[0]), VendorTargets(fs, env, Firefox), steps[1], outcomes[1]);
        StepRemovesIffRemovable(RemoveAll(fs, steps[0] + steps[1]), VendorTargets(fs, env, Edge), steps[2], outcomes[2]);
        assert AllDone(outcomes);
      }
    }
  }

  class BrowserDataCleaner {
    const fileOps: FileOperationsService
    const env: Env
    var spaceFreed: nat
    var filesProcessed: nat

    ghost predicate Valid()
      reads this, fileOps
    {
      fileOps.Valid()
    }

    constructor (fileOps: FileOperationsService, env: Env)
      ensures this.fileOps == fileOps && this.env == env
      ensures spaceFreed == 0 && filesProcessed == 0
    {
      this.fileOps := fileOps;
      this.env := env;
      spaceFreed := 0;
      filesProcessed := 0;
    }

    /** One target (lines 249-265 and the like): if it exists, a cancellation check that
        escapes (Chrome and Edge only), then the move. A successful move counts the file and
        then throws from the length read; a failed move only logs. */
    method ClearTarget(f: FileRef, checkCancel: bool, token: CancellationToken, polls: nat)
      returns (r: Outcome<()>, pollsOut: nat, ghost removed: seq<Removal>)
      requires Valid()
      modifies this, fileOps
      ensures Valid()
      ensures ValidRemovals(old(fileOps.fs), removed) && fileOps.fs == RemoveAll(old(fileOps.fs), removed)
      ensures fileOps.recycleBin == old(fileOps.recycleBin) + removed
      ensures filesProcessed == old(filesProcessed) + |removed| && spaceFreed == old(spaceFreed)
      ensures removed != [] ==> OpenExclusive(old(fileOps.fs), f) == Opened && FileExists(old(fileOps.fs), f) &&
                                removed == [Removal(f, Lookup(old(fileOps.fs), f).value)] && r == Threw(FileNotFound(FullName(f)))
      ensures r.Done? ==> removed == [] && OpenExclusive(old(fileOps.fs), f) != Opened
      ensures r.Threw? && removed == [] ==> r.error == OperationCanceled && checkCancel && CancellationRequested(token, pollsOut)
      ensures polls <= pollsOut && (!checkCancel ==> pollsOut == polls)
    {
      pollsOut, removed := polls, [];
      if FileExists(fileOps.fs, f) {
        if checkCancel {
          if CancellationRequested(token, pollsOut) {
            return Threw(OperationCanceled), pollsOut, removed;
          }
          pollsOut := pollsOut + 1;
        }
        ghost var before := fileOps.fs;
        var moved, size := MoveThenReadLength(fileOps, f);
        if moved {
          filesProcessed := filesProcessed + 1;
          ghost var x := Removal(f, Lookup(before, f).value);
          RemovalsSnoc(before, [], x);
          AppendEmpty([x]);
          removed := [x];
          match size
          case Threw(e) => return Threw(e), pollsOut, removed;
          case Done(_) => assert false;
        }
      }
      r := Done(());
    }

    /** Two targets in turn, as `ClearChromeDataAsync`, `ClearEdgeDataAsync` and the body of
        the Firefox profile loop handle them: the first successful move ends the step, so at
        most one file goes, and the second goes only when the first could not. */
    method ClearPair(first: FileRef, second: FileRef, checkCancel: bool, token: CancellationToken, polls: nat)
      returns (r: Outcome<()>, pollsOut: nat, ghost removed: seq<Removal>)
      requires Valid()
      modifies this, fileOps
      ensures Valid()
      ensures ValidRemovals(old(fileOps.fs), removed) && fileOps.fs == RemoveAll(old(fileOps.fs), removed)
      ensures fileOps.recycleBin == old(fileOps.recycleBin) + removed
      ensures filesProcessed == old(filesProcessed) + |removed| && spaceFreed == old(spaceFreed)
      ensures StepReport(old(fileOps.fs), [first, second], removed, r, CancellationRequested(token, pollsOut), None)
      ensures removed != [] && removed[0].file != first ==> OpenExclusive(old(fileOps.fs), first) != Opened
      ensures !checkCancel ==> pollsOut == polls && (r.Threw? ==> removed != [])
      ensures polls <= pollsOut
    {
      assert first in [first, second] && second in [first, second];
      assert [first, second][..0] == [] && [first, second][..1] == [first];
      r, pollsOut, removed := ClearTarget(first, checkCancel, token, polls);
      if r.Threw? {
        return;
      }
      r, pollsOut, removed := ClearTarget(second, checkCancel, token, pollsOut);
    }

    /** `ClearChromeDataAsync` and `ClearEdgeDataAsync`: if the profile exists, `History`
        then `Cookies`, each with a cancellation check. */
    method ClearChromium(profile: Path, token: CancellationToken, polls: nat)
      returns (r: Outcome<()>, pollsOut: nat, ghost removed: seq<Removal>)
      requires Valid()
      modifies this, fileOps
      ensures Valid()
      ensures ValidRemovals(old(fileOps.fs), removed) && fileOps.fs == RemoveAll(old(fileOps.fs), removed)
      ensures fileOps.recycleBin == old(fileOps.recycleBin) + removed
      ensures filesProcessed == old(filesProcessed) + |removed| && spaceFreed == old(spaceFreed)
      ensures StepReport(old(fileOps.fs), ChromiumTargets(old(fileOps.fs), profile), removed, r,
                         CancellationRequested(token, pollsOut), None)
      ensures removed != [] && removed[0].file == CookiesOf(profile) ==>
                OpenExclusive(old(fileOps.fs), HistoryOf(profile)) != Opened
      ensures polls <= pollsOut
    {
      if !DirExists(fileOps.fs, profile) {
        return Done(()), polls, [];
      }
      r, pollsOut, removed := ClearPair(HistoryOf(profile), CookiesOf(profile), true, token, polls);
    }

    /** The profile loop of `ClearFirefoxDataAsync` (lines 299-338): a cancellation check
        per profile, then `places.sqlite` and `cookies.sqlite` with no further check. The
        first successful move ends the loop. */
    method ClearFirefoxProfiles(profiles: seq<Path>, token: CancellationToken, polls: nat)
      returns (r: Outcome<()>, pollsOut: nat, ghost removed: seq<Removal>)
      requires Valid()
      modifies this, fileOps
      ensures Valid()
      ensures ValidRemovals(old(fileOps.fs), removed) && fileOps.fs == RemoveAll(old(fileOps.fs), removed)
      ensures fileOps.recycleBin == old(fileOps.recycleBin) + removed
      ensures filesProcessed == old(filesProcessed) + |removed| && spaceFreed == old(spaceFreed)
      ensures StepReport(old(fileOps.fs), FirefoxTargets(profiles), removed, r, CancellationRequested(token, pollsOut), None)
      ensures polls <= pollsOut
    {
      pollsOut, removed := polls, [];
      var i := 0;
      while i < |profiles|
        invariant 0 <= i <= |profiles| && polls <= pollsOut
        invariant Valid() && fileOps.fs == old(fileOps.fs) && fileOps.recycleBin == old(fileOps.recycleBin)
        invariant filesProcessed == old(filesProcessed) && spaceFreed == old(spaceFreed)
        invariant removed == [] && !AnyRemovable(old(fileOps.fs), FirefoxTargets(profiles[..i]))
      {
        if CancellationRequested(token, pollsOut) {
          return Threw(OperationCanceled), pollsOut, removed;
        }
        pollsOut := pollsOut + 1;
        var places, cookies := PlacesOf(profiles[i]), FirefoxCookiesOf(profiles[i]);
        FirefoxTargetsSnoc(profiles, i);
        PrefixTargets(profiles, i + 1);
        ghost var done := FirefoxTargets(profiles[..i]);
        r, pollsOut, removed := ClearPair(places, cookies, false, token, pollsOut);
        if r.Threw? {
          assert removed[0].file in FirefoxTargets(profiles);
          if removed != [] {
            FirefoxTargetsBegin(profiles, i + 1);
            FirstRemovableWithin(old(fileOps.fs), done, [places, cookies], FirefoxTargets(profiles), removed[0].file);
          }
          return;
        }
        AnyRemovableAppend(old(fileOps.fs), done, [places, cookies]);
        i := i + 1;
      }
      PrefixAll(profiles, i);
      r := Done(());
    }

    /** `ClearFirefoxDataAsync`: nothing if the profile root is missing; a failing profile
        listing escapes; otherwise the profile loop. */
    method ClearFirefox(token: CancellationToken, polls: nat)
      returns (r: Outcome<()>, pollsOut: nat, ghost removed: seq<Removal>)
      requires Valid()
      modifies this, fileOps
      ensures Valid()
      ensures ValidRemovals(old(fileOps.fs), removed) && fileOps.fs == RemoveAll(old(fileOps.fs), removed)
      ensures fileOps.recycleBin == old(fileOps.recycleBin) + removed
      ensures filesProcessed == old(filesProcessed) + |removed| && spaceFreed == old(spaceFreed)
      ensures StepReport(old(fileOps.fs), VendorTargets(old(fileOps.fs), env, Firefox), removed, r,
                         CancellationRequested(token, pollsOut), FirefoxListing(old(fileOps.fs), env))
      ensures FirefoxListingFails(old(fileOps.fs), env) ==> r == Threw(UnauthorizedAccess(FirefoxRoot(env)))
      ensures polls <= pollsOut
    {
      pollsOut, removed := polls, [];
      var root := FirefoxRoot(env);
      if !DirExists(fileOps.fs, root) {
        return Done(()), pollsOut, removed;
      }
      if Node(fileOps.fs, root).subdirsFail {
        return Threw(UnauthorizedAccess(root)), pollsOut, removed;
      }
      r, pollsOut, removed := ClearFirefoxProfiles(Node(fileOps.fs, root).subdirs, token, polls);
    }

    /** One vendor's step: `ClearChromeDataAsync`, `ClearFirefoxDataAsync` or
        `ClearEdgeDataAsync`. */
    method ClearVendor(v: Vendor, token: CancellationToken, polls: nat)
      returns (r: Outcome<()>, pollsOut: nat, ghost removed: seq<Removal>)
      requires Valid()
      modifies this, fileOps
      ensures Valid()
      ensures ValidRemovals(old(fileOps.fs), removed) && fileOps.fs == RemoveAll(old(fileOps.fs), removed)
      ensures fileOps.recycleBin == old(fileOps.recycleBin) + removed
      ensures filesProcessed == old(filesProcessed) + |removed| && spaceFreed == old(spaceFreed)
      ensures StepReport(old(fileOps.fs), VendorTargets(old(fileOps.fs), env, v), removed, r,
                         CancellationRequested(token, pollsOut), VendorListing(old(fileOps.fs), env, v))
      ensures polls <= pollsOut
    {
      match v
      case Chrome => r, pollsOut, removed := ClearChromium(ChromeProfile(env), token, polls);
      case Firefox => r, pollsOut, removed := ClearFirefox(token, polls);
      case Edge => r, pollsOut, removed := ClearChromium(EdgeProfile(env), token, polls);
    }

    /** The step of `Vendors[k]`, run in the state the earlier steps left; its report
        extends theirs. */
    method NextStep(k: nat, ghost fs0: Fs, ghost ts: seq<seq<FileRef>>, ghost ls: seq<Option<Exn>>,
                    ghost steps: seq<seq<Removal>>, ghost outcomes: seq<Outcome<()>>, ghost done: seq<Removal>,
                    token: CancellationToken, polls: nat)
      returns (r: Outcome<()>, pollsOut: nat, ghost more: seq<Removal>)
      requires Valid() && k == |steps| < |Vendors| && done == Flatten(steps) && fileOps.fs == RemoveAll(fs0, done)
      requires |ts| == |ls| == |Vendors| && ts[k] == VendorTargets(fileOps.fs, env, Vendors[k]) &&
               ls[k] == VendorListing(fileOps.fs, env, Vendors[k])
      requires StepsReported(fs0, ts, ls, steps, outcomes, CancellationRequested(token, polls))
      modifies this, fileOps
      ensures Valid()
      ensures ValidRemovals(old(fileOps.fs), more) && fileOps.fs == RemoveAll(old(fileOps.fs), more)
      ensures fileOps.recycleBin == old(fileOps.recycleBin) + more
      ensures filesProcessed == old(filesProcessed) + |more| && spaceFreed == old(spaceFreed)
      ensures StepsReported(fs0, ts, ls, steps + [more], outcomes + [r], CancellationRequested(token, pollsOut))
      ensures r == Threw(OperationCanceled) ==> CancellationRequested(token, pollsOut)
      ensures polls <= pollsOut
    {
      r, pollsOut, more := ClearVendor(Vendors[k], token, polls);
      StepsReportedNext(fs0, ts, ls, steps, outcomes, done, more, r, CancellationRequested(token, polls),
                        CancellationRequested(token, pollsOut));
    }

    /** The three steps of `CleanAsync` in vendor order, each in its own `try`: a
        cancellation stops the run, any other error only clears `allSuccess`.
        `removedBy[k]` is what the step of `Vendors[k]` removed. */
    method RunSteps(token: CancellationToken, polls: nat)
      returns (allSuccess: bool, pollsOut: nat, ghost removed: seq<Removal>, ghost outcomes: seq<Outcome<()>>,
               ghost removedBy: seq<seq<Removal>>)
      requires Valid()
      modifies this, fileOps
      ensures Valid()
      ensures ValidRemovals(old(fileOps.fs), removed) && fileOps.fs == RemoveAll(old(fileOps.fs), removed)
      ensures fileOps.recycleBin == old(fileOps.recycleBin) + removed
      ensures filesProcessed == old(filesProcessed) + |removed| && spaceFreed == old(spaceFreed)
      ensures allSuccess == AllDone(outcomes)
      ensures removed == Flatten(removedBy)
      ensures StepsReported(old(fileOps.fs), TargetList(old(fileOps.fs), env), ListingList(old(fileOps.fs), env),
                            removedBy, outcomes, CancellationRequested(token, pollsOut))
      ensures |removedBy| == |Vendors| || (CancellationRequested(token, pollsOut) && !allSuccess)
      ensures polls <= pollsOut
    {
      ghost var fs0 := fileOps.fs;
      ghost var ts, ls := TargetList(fs0, env), ListingList(fs0, env);
      outcomes := [];
      allSuccess := true;
      pollsOut, removed := polls, [];
      removedBy := [];
      var k := 0;
      while k < |Vendors|
        invariant k <= |Vendors| && polls <= pollsOut
        invariant Valid() && ValidRemovals(fs0, removed) && fileOps.fs == RemoveAll(fs0, removed)
        invariant fileOps.recycleBin == old(fileOps.recycleBin) + removed
        invariant filesProcessed == old(filesProcessed) + |removed| && spaceFreed == old(spaceFreed)
        invariant allSuccess == AllDone(outcomes)
        invariant k == |removedBy| && removed == Flatten(removedBy)
        invariant StepsReported(fs0, ts, ls, removedBy, outcomes, CancellationRequested(token, pollsOut))
      {
        TargetsAfterRemovals(fs0, env, removed, Vendors[k]);
        var r;
        ghost var more;
        r, pollsOut, more := NextStep(k, fs0, ts, ls, removedBy, outcomes, removed, token, pollsOut);
        RemovalsAppend(fs0, removed, more);
        ConcatAssoc(old(fileOps.recycleBin), removed, more);
        AllDoneSnoc(outcomes, r);
        FlattenSnoc(removedBy, more);
        removed, outcomes, removedBy := removed + more, outcomes + [r], removedBy + [more];
        allSuccess := allSuccess && r.Done?;
        if r == Threw(OperationCanceled) {
          return;
        }
        k := k + 1;
      }
    }

    /** `CleanAsync`: counters reset, then the three vendor steps. Cancellation in any step
        returns `false` at once; any other error makes the result `false` and the next
        vendor still runs. Since every successful move ends its step with an error, at most
        one file per vendor goes and `SpaceFreed` stays 0. */
    method Clean(token: CancellationToken, polls: nat)
      returns (ok: bool, pollsOut: nat, ghost removedBy: seq<seq<Removal>>)
      requires Valid()
      modifies this, fileOps
      ensures Valid()
      ensures ValidRemovals(old(fileOps.fs), Flatten(removedBy)) &&
              fileOps.fs == RemoveAll(old(fileOps.fs), Flatten(removedBy))
      ensures fileOps.recycleBin == old(fileOps.recycleBin) + Flatten(removedBy)
      ensures filesProcessed == |Flatten(removedBy)| && spaceFreed == 0
      ensures CleanReport(old(fileOps.fs), env, removedBy, ok, CancellationRequested(token, pollsOut))
      ensures polls <= pollsOut
    {
      spaceFreed := 0;
      filesProcessed := 0;
      ghost var removed, outcomes;
      ok, pollsOut, removed, outcomes, removedBy := RunSteps(token, polls);
      CleanMeaning(old(fileOps.fs), env, removedBy, outcomes, ok, CancellationRequested(token, pollsOut));
    }

    /** `EstimateSizeAsync`: Chrome, Firefox and Edge estimates added up, with nothing
        caught, so a failing Firefox profile listing or a cancellation escapes. A result is
        always the full `EstimateTotal`. */
    method EstimateSize(token: CancellationToken, polls: nat) returns (r: Outcome<nat>, pollsOut: nat)
      ensures polls <= pollsOut
      ensures r.Done? ==> r.value == EstimateTotal(fileOps.fs, env)
      ensures r.Threw? ==> (r.error == OperationCanceled && CancellationRequested(token, pollsOut)) ||
                           (r.error == UnauthorizedAccess(FirefoxRoot(env)) && FirefoxListingFails(fileOps.fs, env))
      ensures !CancellationRequested(token, pollsOut) && !FirefoxListingFails(fileOps.fs, env) ==> r.Done?
    {
      var fs := fileOps.fs;
      var chrome := EstimateChromiumSize(fs, ChromeProfile(env));
      var firefox;
      firefox, pollsOut := EstimateFirefoxSize(fs, env, token, polls);
      if firefox.Threw? {
        return Threw(firefox.error), pollsOut;
      }
      var edge := EstimateChromiumSize(fs, EdgeProfile(env));
      EstimateByVendor(fs, env);
      r := Done(chrome + firefox.value + edge);
    }
  }
}
