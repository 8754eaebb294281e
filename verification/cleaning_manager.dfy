/** `CleaningManager`: picks the cleaners the options ask for, runs them one after another in
    that order, and reports on them. Each cleaner's own `CleanAsync` is modelled in its own
    module; here what a run did (its outcome, the counters it showed afterwards and the clock
    around it) is given by the function `run`. */
module Manager {
  import opened Common
  import opened Options

  /** The five cleaner types the manager knows. */
  datatype CleanerKind = TemporaryFiles | SystemLogs | OldFiles | BrowserData | DnsCache

  /** The position of each type in the order the manager considers them. */
  function Rank(k: CleanerKind): nat {
    match k
    case TemporaryFiles => 0
    case SystemLogs => 1
    case OldFiles => 2
    case BrowserData => 3
    case DnsCache => 4
  }

  /** An injected cleaner: its runtime type and its `Name`. */
  datatype Cleaner = Cleaner(kind: CleanerKind, name: string)

  /** Whether the options call for a type of cleaner. */
  predicate Wanted(o: CleaningOptions, k: CleanerKind) {
    match k
    case TemporaryFiles => o.includeTemporaryFiles
    case SystemLogs => o.includeLogFiles || o.includeEventLogs
    case OldFiles => o.includeOldFiles
    case BrowserData => o.includeBrowserHistory || o.includeBrowserCookies
    case DnsCache => o.includeDnsTempFiles
  }

  /** The order in which the five `if`s of the selection consider the types. */
  const KindOrder: seq<CleanerKind> := [TemporaryFiles, SystemLogs, OldFiles, BrowserData, DnsCache]

  /** Types listed in strictly increasing rank: no type twice, and in the fixed order. */
  ghost predicate Ranked(ks: seq<CleanerKind>) {
    forall i, j :: 0 <= i < j < |ks| ==> Rank(ks[i]) < Rank(ks[j])
  }

  /** The fixed order lists every type once. */
  lemma KindOrderComplete()
    ensures Ranked(KindOrder) && forall k :: k in KindOrder
  {
    forall k ensures k in KindOrder {
      match k {
        case TemporaryFiles => assert KindOrder[0] == k;
        case SystemLogs => assert KindOrder[1] == k;
        case OldFiles => assert KindOrder[2] == k;
        case BrowserData => assert KindOrder[3] == k;
        case DnsCache => assert KindOrder[4] == k;
      }
    }
  }

  /** The types among `ks` the options call for, in the order of `ks`: one `if` per type. */
  function WantedAmong(o: CleaningOptions, ks: seq<CleanerKind>): seq<CleanerKind> {
    if ks == [] then []
    else (if Wanted(o, ks[0]) then [ks[0]] else []) + WantedAmong(o, ks[1..])
  }

  /** The types the five `if`s of the selection append, in their order. */
  function WantedKinds(o: CleaningOptions): seq<CleanerKind> {
    WantedAmong(o, KindOrder)
  }

  /** The kept types are the wanted ones among `ks`. */
  lemma {:induction false} WantedAmongMembers(o: CleaningOptions, ks: seq<CleanerKind>)
    ensures forall k :: k in WantedAmong(o, ks) <==> k in ks && Wanted(o, k)
  {
    if ks != [] {
      WantedAmongMembers(o, ks[1..]);
      assert ks == [ks[0]] + ks[1..];
    }
  }

  /** Keeping some of a ranked list keeps it ranked. */
  lemma {:induction false} WantedAmongRanked(o: CleaningOptions, ks: seq<CleanerKind>)
    requires Ranked(ks)
    ensures Ranked(WantedAmong(o, ks))
  {
    if ks != [] {
      var rest := ks[1..];
      assert Ranked(rest) by {
        forall i, j | 0 <= i < j < |rest| ensures Rank(rest[i]) < Rank(rest[j]) {
          assert rest[i] == ks[i + 1] && rest[j] == ks[j + 1];
        }
      }
      WantedAmongRanked(o, rest);
      if Wanted(o, ks[0]) {
        var tail := WantedAmong(o, rest);
        var all := WantedAmong(o, ks);
        WantedAmongMembers(o, rest);
        assert all == [ks[0]] + tail;
        forall i, j | 0 <= i < j < |all| ensures Rank(all[i]) < Rank(all[j]) {
          assert all[j] == tail[j - 1] && tail[j - 1] in rest;
          var m :| 0 <= m < |rest| && rest[m] == all[j];
          assert ks[m + 1] == all[j];
          if i > 0 {
            assert all[i] == tail[i - 1];
          }
        }
      }
    }
  }

  /** The selection holds exactly the wanted types, each once, in the fixed order. */
  lemma WantedKindsExact(o: CleaningOptions)
    ensures forall k :: k in WantedKinds(o) <==> Wanted(o, k)
    ensures Ranked(WantedKinds(o))
  {
    KindOrderComplete();
    WantedAmongMembers(o, KindOrder);
    WantedAmongRanked(o, KindOrder);
  }

  /** Default options select all five cleaners. */
  lemma DefaultsSelectAll()
    ensures WantedKinds(Defaults()) == KindOrder
  {
  }

  /** The message of the exception `First` throws when no element matches. */
  function NoMatchMessage(): string {
    "Sequence contains no matching element"
  }

  /** The position `First(s => s is T)` returns: the first injected cleaner of type `k`. */
  function FirstOfKind(cleaners: seq<Cleaner>, k: CleanerKind): (r: Option<nat>)
    ensures r.Some? ==> (r.value < |cleaners| && cleaners[r.value].kind == k &&
                         forall j :: 0 <= j < r.value ==> cleaners[j].kind != k)
    ensures r.None? ==> forall j :: 0 <= j < |cleaners| ==> cleaners[j].kind != k
  {
    if cleaners == [] then None
    else if cleaners[0].kind == k then Some(0)
    else match FirstOfKind(cleaners[1..], k)
      case None => None
      case Some(i) => Some(i + 1)
  }

  /** Looking up each of `kinds` in turn; the first type without a cleaner throws. */
  function Pick(cleaners: seq<Cleaner>, kinds: seq<CleanerKind>): (r: Outcome<seq<Cleaner>>)
    ensures r.Done? <==> forall i :: 0 <= i < |kinds| ==> FirstOfKind(cleaners, kinds[i]).Some?
    ensures r.Threw? ==> r.error == InvalidOperation(NoMatchMessage())
    ensures r.Done? ==> (|r.value| == |kinds| &&
                         forall i :: 0 <= i < |kinds| ==> r.value[i] == cleaners[FirstOfKind(cleaners, kinds[i]).value])
  {
    if kinds == [] then Done([])
    else
      var init := kinds[..|kinds| - 1];
      match Pick(cleaners, init)
      case Threw(e) => Threw(e)
      case Done(picked) =>
        match FirstOfKind(cleaners, kinds[|kinds| - 1])
        case None => Threw(InvalidOperation(NoMatchMessage()))
        case Some(i) => Done(picked + [cleaners[i]])
  }

  /** The list `servicesToRun`. */
  function SelectServices(cleaners: seq<Cleaner>, o: CleaningOptions): Outcome<seq<Cleaner>> {
    Pick(cleaners, WantedKinds(o))
  }

  /** Selection succeeds unless a wanted type has no injected cleaner; then it throws. When it
      succeeds it holds one cleaner of each wanted type and nothing else, in the fixed order,
      and each is the first injected cleaner of its type. */
  lemma SelectionMeaning(cleaners: seq<Cleaner>, o: CleaningOptions)
    ensures SelectServices(cleaners, o).Threw? <==>
      exists k :: Wanted(o, k) && forall c :: c in cleaners ==> c.kind != k
    ensures SelectServices(cleaners, o).Threw? ==>
      SelectServices(cleaners, o).error == InvalidOperation(NoMatchMessage())
    ensures SelectServices(cleaners, o).Done? ==>
      var picked := SelectServices(cleaners, o).value;
      (forall c :: c in picked ==> c in cleaners && Wanted(o, c.kind)) &&
      (forall k :: Wanted(o, k) ==> exists c :: c in picked && c.kind == k) &&
      (forall i, j :: 0 <= i < j < |picked| ==> Rank(picked[i].kind) < Rank(picked[j].kind))
  {
    var kinds := WantedKinds(o);
    WantedKindsExact(o);
    var r := Pick(cleaners, kinds);
    if r.Threw? {
      var i :| 0 <= i < |kinds| && FirstOfKind(cleaners, kinds[i]).None?;
      assert Wanted(o, kinds[i]);
    } else {
      forall k | Wanted(o, k) ensures exists c :: c in r.value && c.kind == k {
        var i :| 0 <= i < |kinds| && kinds[i] == k;
        assert r.value[i] in r.value;
      }
      forall c | c in r.value ensures c in cleaners && Wanted(o, c.kind) {
        var i :| 0 <= i < |r.value| && r.value[i] == c;
        assert kinds[i] in kinds;
      }
    }
  }

  /** What one cleaner's `CleanAsync` did when the manager ran it: its outcome, the
      `FilesProcessed` and `SpaceFreed` it showed afterwards, and the clock read before the
      call and after it returned. */
  datatype ServiceRun = ServiceRun(
    outcome: Outcome<bool>, filesProcessed: int, spaceFreed: int, startTime: int, endTime: int)

  /** A cleaner counts as successful when it returned true without throwing. */
  predicate Succeeded(r: ServiceRun) {
    r.outcome == Done(true)
  }

  /** The report line of one cleaner. `errorMessage` is `None` for a null message; times are
      clock ticks, and an `EndTime` never set is 0. */
  datatype ServiceResult = ServiceResult(
    serviceName: string, success: bool, errorMessage: Option<string>,
    filesProcessed: int, spaceFreed: int, startTime: int, endTime: int)

  /** The message a cancelled cleaner gets. */
  function CancelledMessage(): string {
    "Operation was cancelled"
  }

  /** The body of the report's `Task.Run`: the result object filled in from a run. */
  function ServiceResultOf(c: Cleaner, r: ServiceRun): ServiceResult {
    match r.outcome
    case Done(success) =>
      ServiceResult(c.name, success, None, if success then r.filesProcessed else 0,
                    if success then r.spaceFreed else 0, r.startTime, r.endTime)
    case Threw(OperationCanceled) =>
      ServiceResult(c.name, false, Some(CancelledMessage()), 0, 0, r.startTime, 0)
    case Threw(e) =>
      ServiceResult(c.name, false, Some(Message(e)), 0, 0, r.startTime, 0)
  }

  /** A result reports success exactly for a successful run, and only then carries the
      cleaner's counters; a cancelled run is reported with the fixed message, any other
      exception with its own message. */
  lemma ServiceResultMeaning(c: Cleaner, r: ServiceRun)
    ensures ServiceResultOf(c, r).serviceName == c.name && ServiceResultOf(c, r).startTime == r.startTime
    ensures ServiceResultOf(c, r).success <==> Succeeded(r)
    ensures Succeeded(r) ==> (ServiceResultOf(c, r).filesProcessed == r.filesProcessed &&
                              ServiceResultOf(c, r).spaceFreed == r.spaceFreed)
    ensures !Succeeded(r) ==> ServiceResultOf(c, r).filesProcessed == 0 && ServiceResultOf(c, r).spaceFreed == 0
    ensures ServiceResultOf(c, r).errorMessage.Some? <==> r.outcome.Threw?
    ensures r.outcome == Threw(OperationCanceled) ==> ServiceResultOf(c, r).errorMessage == Some(CancelledMessage())
    ensures r.outcome.Threw? && r.outcome.error != OperationCanceled ==>
      ServiceResultOf(c, r).errorMessage == Some(Message(r.outcome.error))
    ensures ServiceResultOf(c, r).endTime == (if r.outcome.Done? then r.endTime else 0)
  {
  }

  /** The report lines of `services`, in their order. */
  function Results(services: seq<Cleaner>, run: Cleaner -> ServiceRun): (rs: seq<ServiceResult>)
    ensures |rs| == |services|
  {
    if services == [] then []
    else
      var last := services[|services| - 1];
      Results(services[..|services| - 1], run) + [ServiceResultOf(last, run(last))]
  }

  /** There is one report line per cleaner run, in the order the cleaners ran. */
  lemma {:induction false} ResultsInOrder(services: seq<Cleaner>, run: Cleaner -> ServiceRun)
    ensures forall k :: 0 <= k < |services| ==>
      Results(services, run)[k] == ServiceResultOf(services[k], run(services[k]))
  {
    if services != [] {
      ResultsInOrder(services[..|services| - 1], run);
    }
  }

  function TotalFiles(rs: seq<ServiceResult>): int {
    if rs == [] then 0 else TotalFiles(rs[..|rs| - 1]) + rs[|rs| - 1].filesProcessed
  }

  function TotalSpace(rs: seq<ServiceResult>): int {
    if rs == [] then 0 else TotalSpace(rs[..|rs| - 1]) + rs[|rs| - 1].spaceFreed
  }

  /** The files processed by the successful runs among `services`. */
  function SuccessfulFiles(services: seq<Cleaner>, run: Cleaner -> ServiceRun): int {
    if services == [] then 0
    else
      var last := services[|services| - 1];
      SuccessfulFiles(services[..|services| - 1], run) + (if Succeeded(run(last)) then run(last).filesProcessed else 0)
  }

  /** The space freed by the successful runs among `services`. */
  function SuccessfulSpace(services: seq<Cleaner>, run: Cleaner -> ServiceRun): int {
    if services == [] then 0
    else
      var last := services[|services| - 1];
      SuccessfulSpace(services[..|services| - 1], run) + (if Succeeded(run(last)) then run(last).spaceFreed else 0)
  }

  /** The totals of a report count the successful runs only: a failed, cancelled or throwing
      cleaner adds nothing, whatever its counters say. */
  lemma {:induction false} TotalsCountSuccesses(services: seq<Cleaner>, run: Cleaner -> ServiceRun)
    ensures TotalFiles(Results(services, run)) == SuccessfulFiles(services, run)
    ensures TotalSpace(Results(services, run)) == SuccessfulSpace(services, run)
  {
    if services != [] {
      var init := services[..|services| - 1];
      var last := services[|services| - 1];
      TotalsCountSuccesses(init, run);
      ServiceResultMeaning(last, run(last));
      assert Results(services, run)[..|services| - 1] == Results(init, run);
    }
  }

  /** `CleaningResult`: the report of a whole run. Times are clock ticks. */
  datatype CleaningResult = CleaningResult(
    startTime: int, endTime: int, duration: int, serviceResults: seq<ServiceResult>,
    totalFilesProcessed: int, totalSpaceFreed: int)

  /** Whether one of the polls before `n` successive starts, the first of them answered
      after `polls` polls, finds cancellation requested. Requests are sticky, so only the last
      poll matters. */
  predicate CancelledBeforeStart(token: CancellationToken, polls: nat, n: nat) {
    n > 0 && CancellationRequested(token, polls + n - 1)
  }

  /** The launch loop and the success loop of `PerformCleaningAsync` over the selected
      `services`: the token is polled before each start, a requested cancellation throws,
      and otherwise the result is true exactly when every run succeeded. */
  method RunSelected(services: seq<Cleaner>, token: CancellationToken, polls: nat, run: Cleaner -> ServiceRun)
    returns (r: Outcome<bool>, pollsOut: nat)
    ensures polls <= pollsOut
    ensures r.Threw? <==> CancelledBeforeStart(token, polls, |services|)
    ensures r.Threw? ==> r.error == OperationCanceled && CancellationRequested(token, pollsOut)
    ensures r.Done? ==> pollsOut == polls + |services| &&
                        (r.value <==> forall c :: c in services ==> Succeeded(run(c)))
  {
    pollsOut := polls;
    var results: seq<bool> := [];
    var i := 0;
    while i < |services|
      invariant i <= |services| && pollsOut == polls + i && |results| == i
      invariant forall k :: 0 <= k < i ==> (results[k] <==> Succeeded(run(services[k])))
      invariant i > 0 ==> !CancellationRequested(token, pollsOut - 1)
    {
      if CancellationRequested(token, pollsOut) {
        RequestIsSticky(token, pollsOut, polls + |services| - 1);
        return Threw(OperationCanceled), pollsOut;
      }
      pollsOut := pollsOut + 1;
      results := results + [Succeeded(run(services[i]))];
      i := i + 1;
    }
    var allSuccess := true;
    var j := 0;
    while j < |results|
      invariant j <= |results|
      invariant allSuccess <==> forall k :: 0 <= k < j ==> results[k]
    {
      if !results[j] {
        allSuccess := false;
      }
      j := j + 1;
    }
    r := Done(allSuccess);
  }

  /** The launch loop of `PerformCleaningWithReportAsync` over the selected `services`: the
      token is polled before each start, a requested cancellation throws, and otherwise the
      result is the report lines of the runs in their order. */
  method ReportSelected(services: seq<Cleaner>, token: CancellationToken, polls: nat, run: Cleaner -> ServiceRun)
    returns (r: Outcome<seq<ServiceResult>>, pollsOut: nat)
    ensures polls <= pollsOut
    ensures r.Threw? <==> CancelledBeforeStart(token, polls, |services|)
    ensures r.Threw? ==> r.error == OperationCanceled && CancellationRequested(token, pollsOut)
    ensures r.Done? ==> pollsOut == polls + |services| && r.value == Results(services, run)
  {
    pollsOut := polls;
    var results: seq<ServiceResult> := [];
    var i := 0;
    while i < |services|
      invariant i <= |services| && pollsOut == polls + i
      invariant results == Results(services[..i], run)
      invariant i > 0 ==> !CancellationRequested(token, pollsOut - 1)
    {
      if CancellationRequested(token, pollsOut) {
        RequestIsSticky(token, pollsOut, polls + |services| - 1);
        return Threw(OperationCanceled), pollsOut;
      }
      pollsOut := pollsOut + 1;
      assert services[..i + 1][..i] == services[..i];
      results := results + [ServiceResultOf(services[i], run(services[i]))];
      i := i + 1;
    }
    assert services[..i] == services;
    r := Done(results);
  }

  class CleaningManager {
    /** The injected cleaners, in injection order. */
    const cleaners: seq<Cleaner>

    constructor(cleaners: seq<Cleaner>)
      ensures this.cleaners == cleaners
    {
      this.cleaners := cleaners;
    }

    /** `PerformCleaningAsync`. A missing cleaner type throws out of the selection. Before each
        cleaner is started the token is polled, and a requested cancellation throws out of the
        method. A started cleaner's exceptions are caught and count as failure. The result is
        true exactly when every selected cleaner returned true, so it is true when nothing is
        selected. */
    method PerformCleaning(o: CleaningOptions, token: CancellationToken, polls: nat, run: Cleaner -> ServiceRun)
      returns (r: Outcome<bool>, pollsOut: nat)
      ensures polls <= pollsOut
      ensures SelectServices(cleaners, o).Threw? ==> r == Threw(SelectServices(cleaners, o).error)
      ensures SelectServices(cleaners, o).Done? ==>
        var services := SelectServices(cleaners, o).value;
        (r.Threw? <==> CancelledBeforeStart(token, polls, |services|)) &&
        (r.Threw? ==> r.error == OperationCanceled && CancellationRequested(token, pollsOut)) &&
        (r.Done? ==> (r.value <==> forall c :: c in services ==> Succeeded(run(c))))
    {
      var selection := SelectServices(cleaners, o);
      if selection.Threw? {
        return Threw(selection.error), polls;
      }
      r, pollsOut := RunSelected(selection.value, token, polls, run);
    }

    /** `PerformCleaningWithReportAsync`. Selection and the cancellation poll before each start
        behave as in `PerformCleaning`. Otherwise the report holds the lines of the selected
        cleaners in their order, the totals are the sums over those lines, and the duration
        is the time between the two clock readings `startTime` and `endTime`. */
    method PerformCleaningWithReport(o: CleaningOptions, token: CancellationToken, polls: nat,
                                     run: Cleaner -> ServiceRun, startTime: int, endTime: int)
      returns (r: Outcome<CleaningResult>, pollsOut: nat)
      ensures polls <= pollsOut
      ensures SelectServices(cleaners, o).Threw? ==> r == Threw(SelectServices(cleaners, o).error)
      ensures SelectServices(cleaners, o).Done? ==>
        var services := SelectServices(cleaners, o).value;
        (r.Threw? <==> CancelledBeforeStart(token, polls, |services|)) &&
        (r.Threw? ==> r.error == OperationCanceled && CancellationRequested(token, pollsOut)) &&
        (r.Done? ==> r.value.serviceResults == Results(services, run))
      ensures r.Done? ==> (r.value.totalFilesProcessed == TotalFiles(r.value.serviceResults) &&
                           r.value.totalSpaceFreed == TotalSpace(r.value.serviceResults) &&
                           r.value.startTime == startTime && r.value.endTime == endTime &&
                           r.value.duration == endTime - startTime)
    {
      var selection := SelectServices(cleaners, o);
      if selection.Threw? {
        return Threw(selection.error), polls;
      }
      var results;
      results, pollsOut := ReportSelected(selection.value, token, polls, run);
      if results.Threw? {
        return Threw(results.error), pollsOut;
      }
      r := Done(CleaningResult(startTime, endTime, endTime - startTime, results.value,
                               TotalFiles(results.value), TotalSpace(results.value)));
    }
  }
}
