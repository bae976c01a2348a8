/**
 * The scan engine: the order in which the progress checks and the error listener hear about a scan, and
 * which exception, if any, ends it. Repository set-up, package upload, extraction and node reads are
 * collaborators whose outcomes are given with each package; what the engine decides is who is told what,
 * in which order, which exceptions it catches where, and which of them end the scan.
 */
module OakMachines {
  import opened Wrappers
  import opened JavaResult
  import JavaString
  import Violations
  import Seqs

  type PackageId = Violations.PackageId

  /** `catch (RepositoryException e)`. */
  predicate IsRepositoryException(e: Exception) {
    e.className == "RepositoryException"
  }

  /** `catch (IOException | PackageException | RepositoryException e)`. */
  predicate IsPackageFailure(e: Exception) {
    e.className == "IOException" || e.className == "PackageException" || e.className == "RepositoryException"
  }

  const NotValidPrefix := "Package is not valid: "

  /** What `processPackage` throws for a package that is not valid. */
  function NotValid(id: PackageId): (e: Exception)
    ensures IsPackageFailure(e) && e.message == NotValidPrefix + id
  {
    Exception("PackageException", NotValidPrefix + id)
  }

  const Aborted := Exception("AbortedScanException", "")

  /** The progress-check events. */
  datatype Event =
    | StartedScan
    | IdentifyPackage(id: PackageId)
    | IdentifySubpackage(id: PackageId, parentId: PackageId)
    | BeforeExtract(id: PackageId, subpackages: seq<PackageId>)
    | ImportedPath(id: PackageId, path: string)
    | DeletedPath(id: PackageId, path: string)
    | AfterExtract(id: PackageId)
    | FinishedScan
  {
    /** The events raised while a package is processed (everything but the scan brackets). */
    predicate IsPackageEvent() {
      !StartedScan? && !FinishedScan?
    }

    predicate IsPathEvent() {
      ImportedPath? || DeletedPath?
    }

    /** The events whose handlers are called inside a `catch (Exception e)`. */
    predicate CatchesAll() {
      IdentifyPackage? || ImportedPath? || DeletedPath?
    }

    /** The events whose handlers are called inside a `catch (RepositoryException e)`. */
    predicate CatchesRepository() {
      BeforeExtract? || AfterExtract?
    }

    /** The events with a catch around their handlers, which hands the exception to the error listener. */
    predicate Guarded() {
      CatchesAll() || CatchesRepository()
    }

    /**
     * Whether the catch around this event's handlers takes `e`; nothing is caught around `identifySubpackage`,
     * `startedScan` and `finishedScan`.
     */
    predicate Catches(e: Exception) {
      CatchesAll() || (CatchesRepository() && IsRepositoryException(e))
    }
  }

  /** One line of the scan trace: a check notified, or a call on the error listener. */
  datatype Entry =
    | Notified(check: nat, event: Event)
    | ListenerError(check: nat, id: PackageId)
    | ListenerPathError(check: nat, id: PackageId, path: string)
    | ImporterError(id: PackageId, importerPath: Option<string>)
    | SubpackageError(id: PackageId)
    | ListenerStartedScan
    | ListenerFinishedScan

  /** The progress checks, numbered in list order, and what each one's handler of an event throws, if anything. */
  datatype Checks = Checks(count: nat, throws: (nat, Event) -> Option<Exception>)

  /** Check `k` throws at `ev` and the engine does not catch it there. */
  predicate Escapes(cs: Checks, k: nat, ev: Event) {
    cs.throws(k, ev).Some? && !ev.Catches(cs.throws(k, ev).value)
  }

  /** Check `k` throws at `ev` and the engine hands the exception to the error listener. */
  predicate Reported(cs: Checks, k: nat, ev: Event) {
    cs.throws(k, ev).Some? && ev.Catches(cs.throws(k, ev).value)
  }

  /** No check before check `i` lets an exception escape at `ev`, so the broadcast of `ev` gets to check `i`. */
  predicate Reaches(cs: Checks, ev: Event, i: nat) {
    forall j :: 0 <= j < i ==> !Escapes(cs, j, ev)
  }

  /** No check throws anything at `ev`. */
  predicate Quiet(cs: Checks, ev: Event) {
    forall i :: 0 <= i < cs.count ==> cs.throws(i, ev).None?
  }

  /** A message from the package importer: progress on a path, or an error. */
  datatype ImporterMessage =
    | Progress(action: string, path: Option<string>, nodeReadable: bool)
    | Error(errorPath: Option<string>)

  /**
   * What the package manager's `upload` (a file) or `open` (a subpackage) gives: the package, an exception,
   * or the `null` that `open` returns for a package it does not hold.
   */
  datatype Opening = Opened | OpenFails(error: Exception) | Missing

  /**
   * A package as the engine meets it: how it opens; the importer messages of extracting its subpackages and
   * what that throws, if anything; whether it is valid; the importer messages of extracting, saving and
   * closing it and what that throws, if anything; and its subpackages, in the order the extraction reports
   * them.
   */
  datatype Package = Package(
    id: PackageId,
    opening: Opening,
    subpackageMessages: seq<ImporterMessage>,
    subpackageExtraction: Option<Exception>,
    valid: bool,
    extractMessages: seq<ImporterMessage>,
    extraction: Option<Exception>,
    subpackages: seq<Package>)

  /** How a piece of processing ends: normally, or by throwing. */
  datatype Outcome = Completed | Threw(error: Exception)

  function OutcomeOf(thrown: Option<Exception>): Outcome {
    if thrown.Some? then Threw(thrown.value) else Completed
  }

  /** The entries a piece of processing adds, and how it ends. */
  datatype Run = Run(entries: seq<Entry>, outcome: Outcome)

  /** `a`, and then `b` unless `a` threw. */
  function Then(a: Run, b: Run): Run {
    if a.outcome.Threw? then a else Run(a.entries + b.entries, b.outcome)
  }

  const Nothing := Run([], Completed)

  /** Whose report a scan result holds. */
  datatype ReportSource = ErrorListenerReport | CheckReport(check: nat)

  function Ids(packages: seq<Package>): (r: seq<PackageId>)
    ensures |r| == |packages|
    ensures forall k :: 0 <= k < |r| ==> r[k] == packages[k].id
  {
    if packages == [] then [] else Ids(packages[..|packages| - 1]) + [packages[|packages| - 1].id]
  }

  /** The listener report for a check whose exception the engine caught at a guarded event. */
  function Complaint(check: nat, ev: Event): (r: Entry)
    requires ev.Guarded()
    ensures (r.ListenerError? || r.ListenerPathError?) && r.check == check && r.id == ev.id
  {
    if ev.IsPathEvent() then ListenerPathError(check, ev.id, ev.path) else ListenerError(check, ev.id)
  }

  /**
   * One check hearing `ev`: the notification, then the listener report if its exception is caught, or the
   * exception itself if it is not.
   */
  function Reaction(cs: Checks, check: nat, ev: Event): Run {
    match cs.throws(check, ev)
    case None => Run([Notified(check, ev)], Completed)
    case Some(e) =>
      if ev.Catches(e) then Run([Notified(check, ev), Complaint(check, ev)], Completed)
      else Run([Notified(check, ev)], Threw(e))
  }

  /** `progressChecks.forEach(...)` over the first `n` checks: an exception that escapes a handler ends it. */
  function ReactionsOf(cs: Checks, ev: Event, n: nat): Run {
    if n == 0 then Nothing else Then(ReactionsOf(cs, ev, n - 1), Reaction(cs, n - 1, ev))
  }

  function Broadcast(cs: Checks, ev: Event): Run {
    ReactionsOf(cs, ev, cs.count)
  }

  predicate IsAbsolute(path: Option<string>) {
    path.Some? && JavaString.StartsWith(path.value, "/")
  }

  predicate IsDeleteAction(action: string) {
    action == "D" || action == "!"
  }

  /**
   * `ImporterListenerAdapter.onMessage` and `onError`. The path events are caught whatever the checks throw,
   * so only their entries matter here.
   */
  function MessageEntries(cs: Checks, preInstall: bool, id: PackageId, m: ImporterMessage): seq<Entry> {
    match m
    case Error(path) => [ImporterError(id, path)]
    case Progress(action, path, readable) =>
      if preInstall || !IsAbsolute(path) then []
      else if IsDeleteAction(action) then Broadcast(cs, DeletedPath(id, path.value)).entries
      else if !readable then [ImporterError(id, path)]
      else Broadcast(cs, ImportedPath(id, path.value)).entries
  }

  /** The entries of the first `n` messages, in order. */
  function MessagesEntries(cs: Checks, preInstall: bool, id: PackageId, ms: seq<ImporterMessage>, n: nat): seq<Entry>
    requires n <= |ms|
  {
    if n == 0 then [] else MessagesEntries(cs, preInstall, id, ms, n - 1) + MessageEntries(cs, preInstall, id, ms[n - 1])
  }

  function AllMessages(cs: Checks, preInstall: bool, id: PackageId, ms: seq<ImporterMessage>): seq<Entry> {
    MessagesEntries(cs, preInstall, id, ms, |ms|)
  }

  /** Checks hear nothing of a pre-install package. */
  function Announcement(cs: Checks, preInstall: bool, ev: Event): Run {
    if preInstall then Nothing else Broadcast(cs, ev)
  }

  /**
   * `processPackage`: extract the subpackages, refuse an invalid package, announce the extraction, extract,
   * announce it done, then process the subpackages; the first exception ends it.
   */
  function PackageRun(cs: Checks, pkg: Package, preInstall: bool): Run
    decreases pkg, 1, 0
  {
    var subExtraction := AllMessages(cs, preInstall, pkg.id, pkg.subpackageMessages);
    if pkg.subpackageExtraction.Some? then Run(subExtraction, Threw(pkg.subpackageExtraction.value))
    else if !pkg.valid then Run(subExtraction, Threw(NotValid(pkg.id)))
    else
      var announced :=
        Then(Run(subExtraction, Completed), Announcement(cs, preInstall, BeforeExtract(pkg.id, Ids(pkg.subpackages))));
      var extracted :=
        Then(announced, Run(AllMessages(cs, preInstall, pkg.id, pkg.extractMessages), OutcomeOf(pkg.extraction)));
      var done := Then(extracted, Announcement(cs, preInstall, AfterExtract(pkg.id)));
      Then(done, SubpackagesRun(cs, pkg, preInstall, |pkg.subpackages|))
  }

  /** The loop over the first `n` subpackages of `pkg`, left at the first exception that escapes one. */
  function SubpackagesRun(cs: Checks, pkg: Package, preInstall: bool, n: nat): Run
    requires n <= |pkg.subpackages|
    decreases pkg, 0, n
  {
    if n == 0 then Nothing
    else Then(SubpackagesRun(cs, pkg, preInstall, n - 1), SubpackageRun(cs, pkg.subpackages[n - 1], pkg.id, preInstall))
  }

  /**
   * The `try` block of `processSubpackage`: open the subpackage, tell the checks, process it. A `null` from
   * `open` is passed on and throws when the package is first used.
   */
  function SubpackageBody(cs: Checks, sub: Package, parentId: PackageId, preInstall: bool): Run
    decreases sub, 2, 0
  {
    match sub.opening
    case OpenFails(e) => Run([], Threw(e))
    case Missing => Then(Announcement(cs, preInstall, IdentifySubpackage(sub.id, parentId)), Run([], Threw(NullPointer)))
    case Opened => Then(Announcement(cs, preInstall, IdentifySubpackage(sub.id, parentId)), PackageRun(cs, sub, preInstall))
  }

  /** `processSubpackage`: an IO, package or repository failure is reported and goes no further. */
  function SubpackageRun(cs: Checks, sub: Package, parentId: PackageId, preInstall: bool): Run
    decreases sub, 3, 0
  {
    var body := SubpackageBody(cs, sub, parentId, preInstall);
    if body.outcome.Threw? && IsPackageFailure(body.outcome.error) then
      Run(body.entries + [SubpackageError(sub.id)], Completed)
    else body
  }

  /** The `try` block of `processPackageFile`: upload the file, identify the package, process it. */
  function FileBody(cs: Checks, pkg: Package, preInstall: bool): Run {
    match pkg.opening
    case OpenFails(e) => Run([], Threw(e))
    case Missing => Run([], Threw(NullPointer))
    case Opened => Then(Announcement(cs, preInstall, IdentifyPackage(pkg.id)), PackageRun(cs, pkg, preInstall))
  }

  /** `processPackageFile`: an IO, package or repository failure becomes `AbortedScanException`. */
  function FileRun(cs: Checks, pkg: Package, preInstall: bool): Run {
    var body := FileBody(cs, pkg, preInstall);
    if body.outcome.Threw? && IsPackageFailure(body.outcome.error) then Run(body.entries, Threw(Aborted))
    else body
  }

  predicate FileCompletes(cs: Checks, pkg: Package, preInstall: bool) {
    FileRun(cs, pkg, preInstall).outcome.Completed?
  }

  /** The first `n` of `runs`, one after another, left at the first that throws. */
  function Sequence(runs: seq<Run>, n: nat): Run
    requires n <= |runs|
  {
    if n == 0 then Nothing else Then(Sequence(runs, n - 1), runs[n - 1])
  }

  /** What processing each package file on its own would do. */
  function FileRuns(cs: Checks, files: seq<Package>, preInstall: bool): (r: seq<Run>)
    ensures |r| == |files|
  {
    seq(|files|, k requires 0 <= k < |files| => FileRun(cs, files[k], preInstall))
  }

  /** The first `n` package files, stopping at the first that throws. */
  function FilesRun(cs: Checks, files: seq<Package>, preInstall: bool, n: nat): Run
    requires n <= |files|
  {
    Sequence(FileRuns(cs, files, preInstall), n)
  }

  function AllFilesRun(cs: Checks, files: seq<Package>, preInstall: bool): Run {
    FilesRun(cs, files, preInstall, |files|)
  }

  /** The reports of a finished scan: the error listener's first, then one per check in list order. */
  function Reports(n: nat): (r: seq<ReportSource>)
    ensures |r| == n + 1 && r[0] == ErrorListenerReport
    ensures forall k :: 1 <= k < |r| ==> r[k] == CheckReport(k - 1)
  {
    if n == 0 then [ErrorListenerReport] else Reports(n - 1) + [CheckReport(n - 1)]
  }

  datatype Scan = Scan(entries: seq<Entry>, result: Result<seq<ReportSource>>)

  /**
   * The part of `scanPackages` inside its `try`: the repository is set up (`setUp` is what that throws, if
   * anything), the pre-install packages are installed, then the checks are started and the files scanned.
   */
  function ScanBody(cs: Checks, setUp: Option<Exception>, preInstall: seq<Package>, files: Option<seq<Package>>): Run {
    if setUp.Some? then Run([], Threw(setUp.value))
    else
      var started := Then(AllFilesRun(cs, preInstall, true), Broadcast(cs, StartedScan));
      Then(started, AllFilesRun(cs, files.GetOrElse([]), false))
  }

  /** What leaves the `try` of `scanPackages`: a repository failure is wrapped as `AbortedScanException`. */
  function Caught(body: Outcome): Outcome {
    if body.Threw? && IsRepositoryException(body.error) then Threw(Aborted) else body
  }

  /**
   * The `finally` of `scanPackages` and what follows it, after a body that ran as `body`: the checks are
   * told the scan finished, then the error listener; an exception from a check there replaces whatever the
   * body threw and leaves the error listener unfinished. The reports are returned only when nothing was
   * thrown.
   */
  function Finished(cs: Checks, body: Run): Scan {
    var fin := Broadcast(cs, FinishedScan);
    var closing: seq<Entry> := if fin.outcome.Threw? then [] else [ListenerFinishedScan];
    Scan([ListenerStartedScan] + body.entries + fin.entries + closing,
         if fin.outcome.Threw? then Failure(fin.outcome.error)
         else match Caught(body.outcome)
           case Completed => Success(Reports(cs.count))
           case Threw(e) => Failure(e))
  }

  /** `scanPackages`: the error listener is started, the body runs, and the scan is finished however it ended. */
  function ScanRun(cs: Checks, setUp: Option<Exception>, preInstall: seq<Package>, files: Option<seq<Package>>): Scan {
    Finished(cs, ScanBody(cs, setUp, preInstall, files))
  }

  /** Running `next` after `acc` completed, the trace having gone from `start` to `mid` and then to `whole`. */
  lemma ThenStep(start: seq<Entry>, mid: seq<Entry>, whole: seq<Entry>, acc: Run, next: Run)
    requires acc.outcome.Completed? && mid == start + acc.entries && whole == mid + next.entries
    ensures whole == start + Then(acc, next).entries && Then(acc, next).outcome == next.outcome
  {
  }

  /**
   * A broadcast to the first `n` checks completes exactly when no exception escapes any of them; otherwise
   * it ends with the notification of the first check whose exception escapes, and throws that exception.
   */
  lemma {:induction false} ReactionsOutcome(cs: Checks, ev: Event, n: nat)
    ensures ReactionsEnd(cs, ev, n)
  {
    if n > 0 {
      ReactionsOutcome(cs, ev, n - 1);
      ReactionsOutcomeStep(cs, ev, n);
    }
  }

  /** How the broadcast of `ev` to the first `n` checks ends: see `ReactionsOutcome`. */
  predicate ReactionsEnd(cs: Checks, ev: Event, n: nat) {
    var r := ReactionsOf(cs, ev, n);
    (r.outcome.Completed? <==> Reaches(cs, ev, n)) &&
    (r.outcome.Threw? ==>
       |r.entries| > 0 && r.entries[|r.entries| - 1].Notified? &&
       exists i :: 0 <= i < n && Reaches(cs, ev, i) && Escapes(cs, i, ev) && r.outcome.error == cs.throws(i, ev).value)
  }

  /** The broadcast to one more check ends as `ReactionsOutcome` says, given that the first `n - 1` did. */
  lemma ReactionsOutcomeStep(cs: Checks, ev: Event, n: nat)
    requires n > 0 && ReactionsEnd(cs, ev, n - 1)
    ensures ReactionsEnd(cs, ev, n)
  {
    if ReactionsOf(cs, ev, n - 1).outcome.Threw? {
      var i :| 0 <= i < n - 1 && Reaches(cs, ev, i) && Escapes(cs, i, ev) &&
        ReactionsOf(cs, ev, n - 1).outcome.error == cs.throws(i, ev).value;
      ReactionsEndAfterEscape(cs, ev, n, i);
    } else {
      ReactionsEndAtReached(cs, ev, n);
    }
  }

  lemma ReactionsEndAfterEscape(cs: Checks, ev: Event, n: nat, i: nat)
    requires n > 0 && ReactionsEnd(cs, ev, n - 1) && ReactionsOf(cs, ev, n - 1).outcome.Threw?
    requires i < n - 1 && Reaches(cs, ev, i) && Escapes(cs, i, ev)
    requires ReactionsOf(cs, ev, n - 1).outcome.error == cs.throws(i, ev).value
    ensures ReactionsEnd(cs, ev, n)
  {
    ReactionsAfterEscape(cs, ev, n, i);
    var r := ReactionsOf(cs, ev, n);
    assert r.outcome.Threw? && !Reaches(cs, ev, n);
    assert 0 <= i < n && Reaches(cs, ev, i) && Escapes(cs, i, ev) && r.outcome.error == cs.throws(i, ev).value;
  }

  lemma ReactionsEndAtReached(cs: Checks, ev: Event, n: nat)
    requires n > 0 && ReactionsEnd(cs, ev, n - 1) && ReactionsOf(cs, ev, n - 1).outcome.Completed?
    ensures ReactionsEnd(cs, ev, n)
  {
    ReactionsAtReached(cs, ev, n);
    if ReactionsOf(cs, ev, n).outcome.Threw? {
      assert 0 <= n - 1 < n && Reaches(cs, ev, n - 1) && Escapes(cs, n - 1, ev);
    }
  }

  /** After an exception escaped check `i`, the next check changes nothing and is not reached. */
  lemma ReactionsAfterEscape(cs: Checks, ev: Event, n: nat, i: nat)
    requires i < n - 1 && n > 0 && Escapes(cs, i, ev) && ReactionsOf(cs, ev, n - 1).outcome.Threw?
    ensures ReactionsOf(cs, ev, n) == ReactionsOf(cs, ev, n - 1) && !Reaches(cs, ev, n)
  {
  }

  /** When the broadcast reached check `n - 1`, what that check does decides how the first `n` end. */
  lemma ReactionsAtReached(cs: Checks, ev: Event, n: nat)
    requires n > 0 && ReactionsOf(cs, ev, n - 1).outcome.Completed? && Reaches(cs, ev, n - 1)
    ensures var r := ReactionsOf(cs, ev, n);
      (r.outcome.Completed? <==> Reaches(cs, ev, n)) &&
      (r.outcome.Threw? ==>
         |r.entries| > 0 && r.entries[|r.entries| - 1].Notified? &&
         Escapes(cs, n - 1, ev) && r.outcome.error == cs.throws(n - 1, ev).value)
  {
    assert Reaches(cs, ev, n) <==> !Escapes(cs, n - 1, ev);
  }

  /** A broadcast to the first `n` checks completes exactly when no exception escapes any of them. */
  lemma ReactionsComplete(cs: Checks, ev: Event, n: nat)
    ensures ReactionsOf(cs, ev, n).outcome.Completed? <==> Reaches(cs, ev, n)
  {
    ReactionsOutcome(cs, ev, n);
  }

  /** Once an exception escapes a check, no later check hears the event. */
  lemma {:induction false} ReactionsFailureEnds(cs: Checks, ev: Event, n: nat, m: nat)
    requires n <= m && ReactionsOf(cs, ev, n).outcome.Threw?
    ensures ReactionsOf(cs, ev, m) == ReactionsOf(cs, ev, n)
    decreases m
  {
    if m > n {
      ReactionsFailureEnds(cs, ev, n, m - 1);
    }
  }

  /**
   * In `r`, every notification is of `ev` to one of the first `n` checks, the checks are notified in list
   * order, and check `i` is notified exactly when no exception escaped a check before it.
   */
  predicate NotifiedInOrder(cs: Checks, ev: Event, n: nat, r: seq<Entry>) {
    (forall k :: 0 <= k < |r| && r[k].Notified? ==> r[k].event == ev && r[k].check < n) &&
    (forall a, b :: 0 <= a < b < |r| && r[a].Notified? && r[b].Notified? ==> r[a].check < r[b].check) &&
    (forall i :: 0 <= i < n ==> (Notified(i, ev) in r <==> Reaches(cs, ev, i)))
  }

  /**
   * Broadcasting to the first `n` checks notifies them of `ev` at most once each and in list order, and
   * notifies check `i` exactly when no exception escaped a check before it.
   */
  lemma {:induction false} ReactionsInOrder(cs: Checks, ev: Event, n: nat)
    ensures NotifiedInOrder(cs, ev, n, ReactionsOf(cs, ev, n).entries)
  {
    if n > 0 {
      ReactionsInOrder(cs, ev, n - 1);
      if ReactionsOf(cs, ev, n - 1).outcome.Threw? {
        ReactionsStopped(cs, ev, n);
      } else {
        ReactionsContinued(cs, ev, n);
      }
    }
  }

  /** A broadcast that stopped before check `n - 1` keeps its notifications as they were. */
  lemma ReactionsStopped(cs: Checks, ev: Event, n: nat)
    requires 0 < n && ReactionsOf(cs, ev, n - 1).outcome.Threw?
    requires NotifiedInOrder(cs, ev, n - 1, ReactionsOf(cs, ev, n - 1).entries)
    ensures NotifiedInOrder(cs, ev, n, ReactionsOf(cs, ev, n).entries)
  {
    ReactionsComplete(cs, ev, n - 1);
    assert Notified(n - 1, ev) !in ReactionsOf(cs, ev, n - 1).entries;
  }

  /** A broadcast that got to check `n - 1` adds its notification, after all the others. */
  lemma ReactionsContinued(cs: Checks, ev: Event, n: nat)
    requires 0 < n && ReactionsOf(cs, ev, n - 1).outcome.Completed?
    requires NotifiedInOrder(cs, ev, n - 1, ReactionsOf(cs, ev, n - 1).entries)
    ensures NotifiedInOrder(cs, ev, n, ReactionsOf(cs, ev, n).entries)
  {
    ReactionsComplete(cs, ev, n - 1);
    var before := ReactionsOf(cs, ev, n - 1);
    var last := Reaction(cs, n - 1, ev);
    assert ReactionsOf(cs, ev, n).entries == before.entries + last.entries;
    assert last.entries[0] == Notified(n - 1, ev);
    assert forall k :: 1 <= k < |last.entries| ==> !last.entries[k].Notified?;
    ReactionsStep(cs, before.entries, last.entries, ev, n);
  }

  /** One more check's reaction keeps the broadcast's notifications in order, each where it is reached. */
  lemma ReactionsStep(cs: Checks, init: seq<Entry>, last: seq<Entry>, ev: Event, n: nat)
    requires 0 < n && |last| > 0 && last[0] == Notified(n - 1, ev) && Reaches(cs, ev, n - 1)
    requires forall k :: 1 <= k < |last| ==> !last[k].Notified?
    requires NotifiedInOrder(cs, ev, n - 1, init)
    ensures NotifiedInOrder(cs, ev, n, init + last)
  {
    var r := init + last;
    forall k | 0 <= k < |r| && r[k].Notified?
      ensures r[k].event == ev && r[k].check < n
    {
      if k < |init| {
        assert r[k] == init[k];
      } else {
        assert r[k] == last[k - |init|];
      }
    }
    forall a, b | 0 <= a < b < |r| && r[a].Notified? && r[b].Notified?
      ensures r[a].check < r[b].check
    {
      assert r[b] == if b < |init| then init[b] else last[b - |init|];
      if b < |init| {
        assert r[a] == init[a];
      } else {
        assert b == |init| && r[a] == init[a];
      }
    }
    forall i | 0 <= i < n
      ensures Notified(i, ev) in r <==> Reaches(cs, ev, i)
    {
      if i < n - 1 {
        assert Notified(i, ev) !in last;
      } else {
        assert r[|init|] == Notified(n - 1, ev);
      }
    }
  }

  /** `e` is a notification, or the report of one of the first `n` checks whose exception was caught at `ev`. */
  predicate NotifiedOrReported(cs: Checks, ev: Event, n: nat, e: Entry) {
    e.Notified? ||
    (ev.Guarded() && (e.ListenerError? || e.ListenerPathError?) && e.check < n && Reported(cs, e.check, ev) &&
     e == Complaint(e.check, ev))
  }

  /** The only other entries of a broadcast are the reports of checks whose exceptions were caught. */
  lemma {:induction false} ReactionsOnlyReportFailures(cs: Checks, ev: Event, n: nat)
    ensures forall k :: 0 <= k < |ReactionsOf(cs, ev, n).entries| ==>
      NotifiedOrReported(cs, ev, n, ReactionsOf(cs, ev, n).entries[k])
  {
    if n > 0 {
      ReactionsOnlyReportFailures(cs, ev, n - 1);
      var init := ReactionsOf(cs, ev, n - 1);
      var last := Reaction(cs, n - 1, ev);
      var r := ReactionsOf(cs, ev, n).entries;
      forall k | 0 <= k < |r|
        ensures NotifiedOrReported(cs, ev, n, r[k])
      {
        if k < |init.entries| {
          assert r[k] == init.entries[k];
          assert NotifiedOrReported(cs, ev, n - 1, init.entries[k]);
        } else {
          assert init.outcome.Completed? && r == init.entries + last.entries;
          assert r[k] == last.entries[k - |init.entries|];
        }
      }
    }
  }

  /**
   * A broadcast of a guarded event reports a check to the error listener exactly when the broadcast gets to
   * it and the check throws an exception caught there.
   */
  lemma {:induction false} ReactionsReportEachFailure(cs: Checks, ev: Event, n: nat, i: nat)
    requires ev.Guarded() && i < n
    ensures Complaint(i, ev) in ReactionsOf(cs, ev, n).entries <==> Reaches(cs, ev, i) && Reported(cs, i, ev)
  {
    var before := ReactionsOf(cs, ev, n - 1);
    var last := Reaction(cs, n - 1, ev);
    var r := ReactionsOf(cs, ev, n);
    ReactionsOutcome(cs, ev, n - 1);
    if i < n - 1 {
      ReactionsReportEachFailure(cs, ev, n - 1, i);
      if before.outcome.Completed? {
        assert r.entries == before.entries + last.entries;
        assert Complaint(i, ev) !in last.entries;
      }
    } else {
      ReactionsOnlyReportFailures(cs, ev, n - 1);
      forall k | 0 <= k < |before.entries|
        ensures before.entries[k] != Complaint(i, ev)
      {
        assert NotifiedOrReported(cs, ev, n - 1, before.entries[k]);
      }
      assert Complaint(i, ev) !in before.entries;
      if before.outcome.Completed? {
        assert Reaches(cs, ev, i);
        assert r.entries == before.entries + last.entries;
        if Reported(cs, i, ev) {
          assert r.entries[|before.entries| + 1] == Complaint(i, ev);
        } else {
          assert Complaint(i, ev) !in last.entries;
        }
      }
    }
  }

  /** A broadcast of an event caught whatever the checks throw always completes. */
  lemma CaughtBroadcastCompletes(cs: Checks, ev: Event)
    requires ev.CatchesAll()
    ensures Broadcast(cs, ev).outcome.Completed?
  {
    ReactionsOutcome(cs, ev, cs.count);
  }

  /** Where nothing is caught, the broadcast gets past every check exactly when no check throws. */
  lemma UncaughtReachesAll(cs: Checks, ev: Event)
    requires !ev.Guarded()
    ensures Reaches(cs, ev, cs.count) <==> Quiet(cs, ev)
  {
    if Reaches(cs, ev, cs.count) {
      forall i | 0 <= i < cs.count
        ensures cs.throws(i, ev).None?
      {
        assert !Escapes(cs, i, ev);
      }
    }
  }

  /** Every notification in `entries` is a path event of package `id`. */
  predicate PathEventsOf(entries: seq<Entry>, id: PackageId) {
    forall k :: 0 <= k < |entries| && entries[k].Notified? ==>
      entries[k].event.IsPathEvent() && entries[k].event.id == id
  }

  /** Every notification in `entries` is of a package event, and there is none for a pre-install package. */
  predicate PackageEventsOnly(entries: seq<Entry>, preInstall: bool) {
    forall k :: 0 <= k < |entries| && entries[k].Notified? ==> !preInstall && entries[k].event.IsPackageEvent()
  }

  lemma PathEventsJoin(a: seq<Entry>, b: seq<Entry>, id: PackageId)
    requires PathEventsOf(a, id) && PathEventsOf(b, id)
    ensures PathEventsOf(a + b, id)
  {
    assert forall k :: |a| <= k < |a + b| ==> (a + b)[k] == b[k - |a|];
  }

  lemma PackageEventsJoin(a: seq<Entry>, b: seq<Entry>, preInstall: bool)
    requires PackageEventsOnly(a, preInstall) && PackageEventsOnly(b, preInstall)
    ensures PackageEventsOnly(a + b, preInstall)
  {
    assert forall k :: |a| <= k < |a + b| ==> (a + b)[k] == b[k - |a|];
  }

  lemma ThenPackageEvents(a: Run, b: Run, preInstall: bool)
    requires PackageEventsOnly(a.entries, preInstall) && PackageEventsOnly(b.entries, preInstall)
    ensures PackageEventsOnly(Then(a, b).entries, preInstall)
  {
    if a.outcome.Completed? {
      PackageEventsJoin(a.entries, b.entries, preInstall);
    }
  }

  /**
   * `onMessage`: for a scanned package, a progress message on an absolute path notifies every check of a
   * deleted path when the action is "D" or "!", and otherwise of an imported path once the node could be
   * read (an unreadable node goes to the error listener); nothing else notifies a check.
   */
  lemma MessageClassified(cs: Checks, preInstall: bool, id: PackageId, m: ImporterMessage, i: nat, p: string)
    requires i < cs.count
    ensures var r := MessageEntries(cs, preInstall, id, m);
      (Notified(i, DeletedPath(id, p)) in r <==>
         !preInstall && m.Progress? && m.path == Some(p) && JavaString.StartsWith(p, "/") && IsDeleteAction(m.action)) &&
      (Notified(i, ImportedPath(id, p)) in r <==>
         !preInstall && m.Progress? && m.path == Some(p) && JavaString.StartsWith(p, "/") && !IsDeleteAction(m.action) &&
         m.nodeReadable)
  {
    if m.Progress? && !preInstall && IsAbsolute(m.path) {
      if IsDeleteAction(m.action) {
        var ev := DeletedPath(id, m.path.value);
        ReactionsInOrder(cs, ev, cs.count);
        assert Reaches(cs, ev, i);
      } else if m.nodeReadable {
        var ev := ImportedPath(id, m.path.value);
        ReactionsInOrder(cs, ev, cs.count);
        assert Reaches(cs, ev, i);
      }
    }
  }

  /** A message notifies checks only of the package's own paths, and never for a pre-install package. */
  lemma MessagePathEvents(cs: Checks, preInstall: bool, id: PackageId, m: ImporterMessage)
    ensures PathEventsOf(MessageEntries(cs, preInstall, id, m), id)
    ensures PackageEventsOnly(MessageEntries(cs, preInstall, id, m), preInstall)
  {
    if m.Progress? && !preInstall && IsAbsolute(m.path) {
      if IsDeleteAction(m.action) {
        ReactionsInOrder(cs, DeletedPath(id, m.path.value), cs.count);
      } else if m.nodeReadable {
        ReactionsInOrder(cs, ImportedPath(id, m.path.value), cs.count);
      }
    }
  }

  /** The importer's messages for a package notify the checks of that package's paths only. */
  lemma {:induction false} MessagesArePathEvents(cs: Checks, preInstall: bool, id: PackageId, ms: seq<ImporterMessage>, n: nat)
    requires n <= |ms|
    ensures PathEventsOf(MessagesEntries(cs, preInstall, id, ms, n), id)
    ensures PackageEventsOnly(MessagesEntries(cs, preInstall, id, ms, n), preInstall)
  {
    if n > 0 {
      MessagesArePathEvents(cs, preInstall, id, ms, n - 1);
      var m := ms[n - 1];
      MessagePathEvents(cs, preInstall, id, m);
      PathEventsJoin(MessagesEntries(cs, preInstall, id, ms, n - 1), MessageEntries(cs, preInstall, id, m), id);
      PackageEventsJoin(MessagesEntries(cs, preInstall, id, ms, n - 1), MessageEntries(cs, preInstall, id, m), preInstall);
    }
  }

  lemma AllMessagesEvents(cs: Checks, preInstall: bool, id: PackageId, ms: seq<ImporterMessage>)
    ensures PathEventsOf(AllMessages(cs, preInstall, id, ms), id)
    ensures PackageEventsOnly(AllMessages(cs, preInstall, id, ms), preInstall)
  {
    MessagesArePathEvents(cs, preInstall, id, ms, |ms|);
  }

  /** What a broadcast of a package event adds: only package events, and nothing for a pre-install package. */
  lemma AnnouncementEvents(cs: Checks, preInstall: bool, ev: Event)
    requires ev.IsPackageEvent()
    ensures PackageEventsOnly(Announcement(cs, preInstall, ev).entries, preInstall)
  {
    ReactionsInOrder(cs, ev, cs.count);
  }

  /**
   * Processing a package tells the checks only of package events, and tells them nothing at all about a
   * pre-install package or any of its subpackages.
   */
  lemma {:induction false} PackageRunEvents(cs: Checks, pkg: Package, preInstall: bool)
    ensures PackageEventsOnly(PackageRun(cs, pkg, preInstall).entries, preInstall)
    decreases pkg, 1, 0
  {
    AllMessagesEvents(cs, preInstall, pkg.id, pkg.subpackageMessages);
    if pkg.subpackageExtraction.None? && pkg.valid {
      var sub := Run(AllMessages(cs, preInstall, pkg.id, pkg.subpackageMessages), Completed);
      var before := Announcement(cs, preInstall, BeforeExtract(pkg.id, Ids(pkg.subpackages)));
      var extract := Run(AllMessages(cs, preInstall, pkg.id, pkg.extractMessages), OutcomeOf(pkg.extraction));
      var after := Announcement(cs, preInstall, AfterExtract(pkg.id));
      var subs := SubpackagesRun(cs, pkg, preInstall, |pkg.subpackages|);
      AnnouncementEvents(cs, preInstall, BeforeExtract(pkg.id, Ids(pkg.subpackages)));
      AllMessagesEvents(cs, preInstall, pkg.id, pkg.extractMessages);
      AnnouncementEvents(cs, preInstall, AfterExtract(pkg.id));
      SubpackagesRunEvents(cs, pkg, preInstall, |pkg.subpackages|);
      ThenPackageEvents(sub, before, preInstall);
      ThenPackageEvents(Then(sub, before), extract, preInstall);
      ThenPackageEvents(Then(Then(sub, before), extract), after, preInstall);
      ThenPackageEvents(Then(Then(Then(sub, before), extract), after), subs, preInstall);
    }
  }

  lemma {:induction false} SubpackagesRunEvents(cs: Checks, pkg: Package, preInstall: bool, n: nat)
    requires n <= |pkg.subpackages|
    ensures PackageEventsOnly(SubpackagesRun(cs, pkg, preInstall, n).entries, preInstall)
    decreases pkg, 0, n
  {
    if n > 0 {
      SubpackagesRunEvents(cs, pkg, preInstall, n - 1);
      SubpackageRunEvents(cs, pkg.subpackages[n - 1], pkg.id, preInstall);
      ThenPackageEvents(SubpackagesRun(cs, pkg, preInstall, n - 1),
                        SubpackageRun(cs, pkg.subpackages[n - 1], pkg.id, preInstall), preInstall);
    }
  }

  lemma {:induction false} SubpackageRunEvents(cs: Checks, sub: Package, parentId: PackageId, preInstall: bool)
    ensures PackageEventsOnly(SubpackageRun(cs, sub, parentId, preInstall).entries, preInstall)
    decreases sub, 3, 0
  {
    var body := SubpackageBody(cs, sub, parentId, preInstall);
    if !sub.opening.OpenFails? {
      var identify := Announcement(cs, preInstall, IdentifySubpackage(sub.id, parentId));
      var rest := if sub.opening.Missing? then Run([], Threw(NullPointer)) else PackageRun(cs, sub, preInstall);
      AnnouncementEvents(cs, preInstall, IdentifySubpackage(sub.id, parentId));
      if sub.opening.Opened? {
        PackageRunEvents(cs, sub, preInstall);
      }
      ThenPackageEvents(identify, rest, preInstall);
      assert body == Then(identify, rest);
    }
    PackageEventsJoin(body.entries, [SubpackageError(sub.id)], preInstall);
  }

  lemma FileRunEvents(cs: Checks, pkg: Package, preInstall: bool)
    ensures PackageEventsOnly(FileRun(cs, pkg, preInstall).entries, preInstall)
  {
    if pkg.opening.Opened? {
      AnnouncementEvents(cs, preInstall, IdentifyPackage(pkg.id));
      PackageRunEvents(cs, pkg, preInstall);
      ThenPackageEvents(Announcement(cs, preInstall, IdentifyPackage(pkg.id)), PackageRun(cs, pkg, preInstall), preInstall);
    }
  }

  /** A sequence of runs notifies only of package events (and of none in pre-install) when each of its runs does. */
  lemma {:induction false} SequenceEvents(runs: seq<Run>, n: nat, preInstall: bool)
    requires n <= |runs|
    requires forall k :: 0 <= k < n ==> PackageEventsOnly(runs[k].entries, preInstall)
    ensures PackageEventsOnly(Sequence(runs, n).entries, preInstall)
  {
    if n > 0 {
      SequenceEvents(runs, n - 1, preInstall);
      ThenPackageEvents(Sequence(runs, n - 1), runs[n - 1], preInstall);
    }
  }

  /** Pre-install packages emit no check events; scanned files emit only package events. */
  lemma FilesRunEvents(cs: Checks, files: seq<Package>, preInstall: bool, n: nat)
    requires n <= |files|
    ensures PackageEventsOnly(FilesRun(cs, files, preInstall, n).entries, preInstall)
  {
    var runs := FileRuns(cs, files, preInstall);
    forall k | 0 <= k < n
      ensures PackageEventsOnly(runs[k].entries, preInstall)
    {
      FileRunEvents(cs, files[k], preInstall);
    }
    SequenceEvents(runs, n, preInstall);
  }

  /**
   * A package fails with what extracting its subpackages throws; failing that, one that is not valid throws
   * the "Package is not valid" `PackageException`; it completes exactly when, besides, both announcements,
   * the extraction and every subpackage complete; and once announced, an extraction that throws ends it with
   * that exception.
   */
  lemma PackageRunOutcome(cs: Checks, pkg: Package, preInstall: bool)
    ensures var r := PackageRun(cs, pkg, preInstall);
      var before := Announcement(cs, preInstall, BeforeExtract(pkg.id, Ids(pkg.subpackages)));
      (pkg.subpackageExtraction.Some? ==> r.outcome == Threw(pkg.subpackageExtraction.value)) &&
      (pkg.subpackageExtraction.None? && !pkg.valid ==> r.outcome == Threw(NotValid(pkg.id))) &&
      (r.outcome.Completed? <==>
         pkg.subpackageExtraction.None? && pkg.valid && before.outcome.Completed? && pkg.extraction.None? &&
         Announcement(cs, preInstall, AfterExtract(pkg.id)).outcome.Completed? &&
         SubpackagesRun(cs, pkg, preInstall, |pkg.subpackages|).outcome.Completed?) &&
      (pkg.subpackageExtraction.None? && pkg.valid && before.outcome.Completed? && pkg.extraction.Some? ==>
         r.outcome == Threw(pkg.extraction.value))
  {
  }

  /**
   * A package file completes exactly when it was uploaded and its package completed. What it throws is never
   * an IO, package or repository exception: those become `AbortedScanException`, and anything else, a
   * `NullPointerException` for a `null` upload included, escapes as itself.
   */
  lemma FileRunOutcome(cs: Checks, pkg: Package, preInstall: bool)
    ensures var r := FileRun(cs, pkg, preInstall);
      var run := PackageRun(cs, pkg, preInstall);
      (r.outcome.Completed? <==> pkg.opening.Opened? && run.outcome.Completed?) &&
      (r.outcome.Threw? ==> !IsPackageFailure(r.outcome.error)) &&
      (pkg.opening.OpenFails? ==>
         r == Run([], Threw(if IsPackageFailure(pkg.opening.error) then Aborted else pkg.opening.error))) &&
      (pkg.opening.Missing? ==> r == Run([], Threw(NullPointer))) &&
      (pkg.opening.Opened? && run.outcome.Threw? ==>
         r.outcome == Threw(if IsPackageFailure(run.outcome.error) then Aborted else run.outcome.error))
  {
    if pkg.opening.Opened? && !preInstall {
      CaughtBroadcastCompletes(cs, IdentifyPackage(pkg.id));
    }
  }

  /** A sequence of runs completes exactly when each of its runs does. */
  lemma {:induction false} SequenceCompletes(runs: seq<Run>, n: nat)
    requires n <= |runs|
    ensures Sequence(runs, n).outcome.Completed? <==> forall k :: 0 <= k < n ==> runs[k].outcome.Completed?
  {
    if n > 0 {
      SequenceCompletes(runs, n - 1);
    }
  }

  /** Once a run of a sequence has thrown, later runs change nothing. */
  lemma {:induction false} SequenceFailureEnds(runs: seq<Run>, n: nat, m: nat)
    requires n <= m <= |runs|
    requires Sequence(runs, n).outcome.Threw?
    ensures Sequence(runs, m) == Sequence(runs, n)
    decreases m
  {
    if m > n {
      SequenceFailureEnds(runs, n, m - 1);
    }
  }

  /** The files loop completes exactly when every one of the first `n` files completed. */
  lemma FilesRunCompletes(cs: Checks, files: seq<Package>, preInstall: bool, n: nat)
    requires n <= |files|
    ensures FilesRun(cs, files, preInstall, n).outcome.Completed? <==>
      forall k :: 0 <= k < n ==> FileCompletes(cs, files[k], preInstall)
  {
    var runs := FileRuns(cs, files, preInstall);
    SequenceCompletes(runs, n);
    assert forall k :: 0 <= k < n ==> (runs[k].outcome.Completed? <==> FileCompletes(cs, files[k], preInstall));
  }

  /** Once a file has thrown, later files change nothing. */
  lemma FailureEndsFiles(cs: Checks, files: seq<Package>, preInstall: bool, n: nat, m: nat)
    requires n <= m <= |files|
    requires FilesRun(cs, files, preInstall, n).outcome.Threw?
    ensures FilesRun(cs, files, preInstall, m) == FilesRun(cs, files, preInstall, n)
  {
    SequenceFailureEnds(FileRuns(cs, files, preInstall), n, m);
  }

  /** The files loop runs one more file after the first `n`. */
  lemma FilesRunStep(cs: Checks, files: seq<Package>, preInstall: bool, n: nat)
    requires n < |files|
    ensures FilesRun(cs, files, preInstall, n + 1) == Then(FilesRun(cs, files, preInstall, n), FileRun(cs, files[n], preInstall))
  {
  }

  /** The files loop, left after `n` files because they are all done or the last of them threw, is over. */
  lemma FilesRunExit(cs: Checks, files: seq<Package>, preInstall: bool, n: nat)
    requires n <= |files|
    requires n == |files| || FilesRun(cs, files, preInstall, n).outcome.Threw?
    ensures FilesRun(cs, files, preInstall, n) == AllFilesRun(cs, files, preInstall)
  {
    if n < |files| {
      FailureEndsFiles(cs, files, preInstall, n, |files|);
    }
  }

  /** Once an exception escapes a subpackage, no later subpackage is processed. */
  lemma {:induction false} SubpackageFailureEnds(cs: Checks, pkg: Package, preInstall: bool, n: nat, m: nat)
    requires n <= m <= |pkg.subpackages|
    requires SubpackagesRun(cs, pkg, preInstall, n).outcome.Threw?
    ensures SubpackagesRun(cs, pkg, preInstall, m) == SubpackagesRun(cs, pkg, preInstall, n)
    decreases m
  {
    if m > n {
      SubpackageFailureEnds(cs, pkg, preInstall, n, m - 1);
    }
  }

  /** Appending `a` and then `b` appends `a + b`. */
  lemma Extended<T>(whole: seq<T>, start: seq<T>, mid: seq<T>, a: seq<T>, b: seq<T>)
    requires mid == start + a && whole == mid + b
    ensures whole == start + (a + b)
  {
  }

  /**
   * A package that completes tells the checks, in order: the paths of its subpackage extraction, that it is
   * about to be extracted (with its subpackage ids in order), the paths of its own extraction, that it was
   * extracted, and then everything about its subpackages.
   */
  lemma PackageEventOrder(cs: Checks, pkg: Package)
    requires PackageRun(cs, pkg, false).outcome.Completed?
    ensures exists extracting, extracted ::
      PathEventsOf(extracting, pkg.id) && PathEventsOf(extracted, pkg.id) &&
      PackageRun(cs, pkg, false).entries ==
        extracting + Broadcast(cs, BeforeExtract(pkg.id, Ids(pkg.subpackages))).entries + extracted +
        Broadcast(cs, AfterExtract(pkg.id)).entries + SubpackagesRun(cs, pkg, false, |pkg.subpackages|).entries
  {
    AllMessagesEvents(cs, false, pkg.id, pkg.subpackageMessages);
    AllMessagesEvents(cs, false, pkg.id, pkg.extractMessages);
    var extracting := AllMessages(cs, false, pkg.id, pkg.subpackageMessages);
    var extracted := AllMessages(cs, false, pkg.id, pkg.extractMessages);
    PackageRunOutcome(cs, pkg, false);
    assert PackageRun(cs, pkg, false).entries ==
      extracting + Broadcast(cs, BeforeExtract(pkg.id, Ids(pkg.subpackages))).entries + extracted +
      Broadcast(cs, AfterExtract(pkg.id)).entries + SubpackagesRun(cs, pkg, false, |pkg.subpackages|).entries;
  }

  /** The entries of each of the first `n` subpackages of `pkg` processed on its own, in order. */
  function SubpackageEntries(cs: Checks, pkg: Package, preInstall: bool, n: nat): (r: seq<seq<Entry>>)
    requires n <= |pkg.subpackages|
    ensures |r| == n
  {
    if n == 0 then []
    else SubpackageEntries(cs, pkg, preInstall, n - 1) + [SubpackageRun(cs, pkg.subpackages[n - 1], pkg.id, preInstall).entries]
  }

  /** The `k`th of the subpackage entry lists is that subpackage's run, whatever the prefix taken. */
  lemma {:induction false} SubpackageEntriesAt(cs: Checks, pkg: Package, preInstall: bool, n: nat, k: nat)
    requires k < n <= |pkg.subpackages|
    ensures SubpackageEntries(cs, pkg, preInstall, n)[k] == SubpackageRun(cs, pkg.subpackages[k], pkg.id, preInstall).entries
  {
    if k < n - 1 {
      SubpackageEntriesAt(cs, pkg, preInstall, n - 1, k);
    }
  }

  /** A run that appends `last` to the flattening of `ss` is the flattening of `ss` with `last` added. */
  lemma FlattenStep(r: seq<Entry>, before: seq<Entry>, ss: seq<seq<Entry>>, last: seq<Entry>)
    requires before == Seqs.Flatten(ss) && r == before + last
    ensures r == Seqs.Flatten(ss + [last])
  {
    Seqs.FlattenSnoc(ss, last);
  }

  /** The subpackages loop completes exactly when every subpackage's run does. */
  lemma {:induction false} SubpackagesComplete(cs: Checks, pkg: Package, preInstall: bool, n: nat)
    requires n <= |pkg.subpackages|
    ensures SubpackagesRun(cs, pkg, preInstall, n).outcome.Completed? <==>
      forall k :: 0 <= k < n ==> SubpackageRun(cs, pkg.subpackages[k], pkg.id, preInstall).outcome.Completed?
  {
    if n > 0 {
      SubpackagesComplete(cs, pkg, preInstall, n - 1);
      var before := SubpackagesRun(cs, pkg, preInstall, n - 1);
      if before.outcome.Threw? {
        var k :| 0 <= k < n - 1 && SubpackageRun(cs, pkg.subpackages[k], pkg.id, preInstall).outcome.Threw?;
      }
    }
  }

  /**
   * Subpackages are processed depth-first in the order they were extracted: when the loop completes, its
   * entries are each subpackage's complete run, its own subpackages included, one after another.
   */
  lemma {:induction false} SubpackagesDepthFirst(cs: Checks, pkg: Package, preInstall: bool, n: nat)
    requires n <= |pkg.subpackages|
    ensures var r := SubpackagesRun(cs, pkg, preInstall, n);
      r.outcome.Completed? ==> r.entries == Seqs.Flatten(SubpackageEntries(cs, pkg, preInstall, n))
  {
    if n > 0 {
      SubpackagesDepthFirst(cs, pkg, preInstall, n - 1);
      var before := SubpackagesRun(cs, pkg, preInstall, n - 1);
      var last := SubpackageRun(cs, pkg.subpackages[n - 1], pkg.id, preInstall);
      if before.outcome.Completed? {
        FlattenStep(SubpackagesRun(cs, pkg, preInstall, n).entries, before.entries,
                    SubpackageEntries(cs, pkg, preInstall, n - 1), last.entries);
      }
    }
  }

  /**
   * Every check that hears of a package hears first of it (`identifyPackage` for a file, `identifySubpackage`
   * for a subpackage). A file that cannot be uploaded tells nobody anything; a subpackage that cannot be
   * opened is reported to the error listener when the failure is an IO, package or repository exception and
   * otherwise throws; a subpackage the manager does not hold is announced and then throws a
   * `NullPointerException`.
   */
  lemma IdentifiedFirst(cs: Checks, pkg: Package, parentId: PackageId)
    ensures pkg.opening.Opened? ==> Broadcast(cs, IdentifyPackage(pkg.id)).entries <= FileRun(cs, pkg, false).entries
    ensures !pkg.opening.Opened? ==> FileRun(cs, pkg, false).entries == []
    ensures !pkg.opening.OpenFails? ==>
      Broadcast(cs, IdentifySubpackage(pkg.id, parentId)).entries <= SubpackageRun(cs, pkg, parentId, false).entries
    ensures pkg.opening.OpenFails? ==>
      SubpackageRun(cs, pkg, parentId, false) ==
        if IsPackageFailure(pkg.opening.error) then Run([SubpackageError(pkg.id)], Completed)
        else Run([], Threw(pkg.opening.error))
    ensures pkg.opening.Missing? && Broadcast(cs, IdentifySubpackage(pkg.id, parentId)).outcome.Completed? ==>
      SubpackageRun(cs, pkg, parentId, false) ==
        Run(Broadcast(cs, IdentifySubpackage(pkg.id, parentId)).entries, Threw(NullPointer))
  {
    CaughtBroadcastCompletes(cs, IdentifyPackage(pkg.id));
  }

  /**
   * A subpackage whose processing throws an IO, package or repository exception is reported to the error
   * listener, last, and its parent carries on; any other exception leaves it unreported.
   */
  lemma SubpackageFailureReported(cs: Checks, sub: Package, parentId: PackageId, preInstall: bool)
    ensures var body := SubpackageBody(cs, sub, parentId, preInstall);
      var r := SubpackageRun(cs, sub, parentId, preInstall);
      (body.outcome.Threw? && IsPackageFailure(body.outcome.error) ==>
         r.outcome.Completed? && body.entries <= r.entries && |r.entries| == |body.entries| + 1 &&
         r.entries[|r.entries| - 1] == SubpackageError(sub.id)) &&
      (r.outcome.Threw? ==> r == body && !IsPackageFailure(r.outcome.error))
  {
  }

  /** Every notification in `entries` is of an event `allowed` accepts. */
  predicate NotifiesOnly(entries: seq<Entry>, allowed: Event -> bool) {
    forall k :: 0 <= k < |entries| && entries[k].Notified? ==> allowed(entries[k].event)
  }

  lemma NotifiesOnlyJoin(a: seq<Entry>, b: seq<Entry>, allowed: Event -> bool)
    requires NotifiesOnly(a, allowed) && NotifiesOnly(b, allowed)
    ensures NotifiesOnly(a + b, allowed)
  {
    assert forall k :: |a| <= k < |a + b| ==> (a + b)[k] == b[k - |a|];
  }

  lemma ThenNotifiesOnly(a: Run, b: Run, allowed: Event -> bool)
    requires NotifiesOnly(a.entries, allowed) && NotifiesOnly(b.entries, allowed)
    ensures NotifiesOnly(Then(a, b).entries, allowed)
  {
    if a.outcome.Completed? {
      NotifiesOnlyJoin(a.entries, b.entries, allowed);
    }
  }

  function IsNotPackageEvent(ev: Event): bool { !ev.IsPackageEvent() }
  function IsNotFinishedScan(ev: Event): bool { !ev.FinishedScan? }
  function IsFinishedScan(ev: Event): bool { ev.FinishedScan? }

  /** Package events are never the end of the scan; for a pre-install package there are none at all. */
  lemma PackageEventsNotify(entries: seq<Entry>, preInstall: bool)
    requires PackageEventsOnly(entries, preInstall)
    ensures NotifiesOnly(entries, IsNotFinishedScan)
    ensures preInstall ==> NotifiesOnly(entries, IsNotPackageEvent)
  {
  }

  /** What the body of a scan tells the checks is never that the scan finished. */
  lemma ScanBodyUnfinished(cs: Checks, setUp: Option<Exception>, preInstall: seq<Package>, files: Option<seq<Package>>)
    ensures NotifiesOnly(ScanBody(cs, setUp, preInstall, files).entries, IsNotFinishedScan)
  {
    if setUp.None? {
      var pre := AllFilesRun(cs, preInstall, true);
      var started := Broadcast(cs, StartedScan);
      var scanned := AllFilesRun(cs, files.GetOrElse([]), false);
      FilesRunEvents(cs, preInstall, true, |preInstall|);
      FilesRunEvents(cs, files.GetOrElse([]), false, |files.GetOrElse([])|);
      PackageEventsNotify(pre.entries, true);
      PackageEventsNotify(scanned.entries, false);
      ReactionsInOrder(cs, StartedScan, cs.count);
      ThenNotifiesOnly(pre, started, IsNotFinishedScan);
      ThenNotifiesOnly(Then(pre, started), scanned, IsNotFinishedScan);
    }
  }

  /**
   * In the trace `e` of a scan, the error listener is started first; it is finished, last, exactly when no
   * check throws on `finishedScan`; each check is told the scan finished exactly when no check before it
   * threw there; and after the first check is told so nothing but the end of the scan follows.
   */
  predicate FinishesEveryCheck(cs: Checks, e: seq<Entry>) {
    |e| > 0 && e[0] == ListenerStartedScan &&
    (e[|e| - 1] == ListenerFinishedScan <==> Quiet(cs, FinishedScan)) &&
    (forall i :: 0 <= i < cs.count ==> (Notified(i, FinishedScan) in e <==> Reaches(cs, FinishedScan, i))) &&
    (forall a, b :: 0 <= a < b < |e| && e[a].Notified? && e[a].event == FinishedScan && e[b].Notified? ==>
       e[b].event == FinishedScan)
  }

  /**
   * A trace made of the start of the error listener, a body that never tells of the finished scan, the
   * broadcast of the finished scan and, when no check threw there, the end of the error listener.
   */
  lemma FinishesEveryCheckOf(cs: Checks, body: seq<Entry>, fin: seq<Entry>, quiet: bool)
    requires NotifiesOnly(body, IsNotFinishedScan) && NotifiedInOrder(cs, FinishedScan, cs.count, fin)
    requires quiet <==> Quiet(cs, FinishedScan)
    requires !quiet ==> |fin| > 0 && fin[|fin| - 1].Notified?
    ensures FinishesEveryCheck(cs, [ListenerStartedScan] + body + fin + (if quiet then [ListenerFinishedScan] else []))
  {
    var closing: seq<Entry> := if quiet then [ListenerFinishedScan] else [];
    var e := [ListenerStartedScan] + body + fin + closing;
    var prefix := [ListenerStartedScan] + body;
    var suffix := fin + closing;
    NotifiesOnlyJoin([ListenerStartedScan], body, IsNotFinishedScan);
    NotifiesOnlyJoin(fin, closing, IsFinishedScan);
    Reassociate([ListenerStartedScan], body, fin, closing);
    FinishedScanLast(prefix, suffix);
    forall i | 0 <= i < cs.count
      ensures Notified(i, FinishedScan) in e <==> Notified(i, FinishedScan) in fin
    {
      assert Notified(i, FinishedScan) !in prefix;
      assert Notified(i, FinishedScan) !in closing;
    }
    if !quiet {
      assert e == prefix + fin;
      assert e[|e| - 1] == fin[|fin| - 1];
    }
  }

  /** Whatever a body that never tells of the finished scan did, finishing the scan finishes every check. */
  lemma FinishedEveryCheck(cs: Checks, body: Run)
    requires NotifiesOnly(body.entries, IsNotFinishedScan)
    ensures FinishesEveryCheck(cs, Finished(cs, body).entries)
  {
    var fin := Broadcast(cs, FinishedScan);
    ReactionsInOrder(cs, FinishedScan, cs.count);
    ReactionsOutcome(cs, FinishedScan, cs.count);
    UncaughtReachesAll(cs, FinishedScan);
    FinishesEveryCheckOf(cs, body.entries, fin.entries, fin.outcome.Completed?);
  }

  /** However the scan ends, it finishes every check as `FinishesEveryCheck` says. */
  lemma ScanFinishesEveryCheck(cs: Checks, setUp: Option<Exception>, preInstall: seq<Package>, files: Option<seq<Package>>)
    ensures FinishesEveryCheck(cs, ScanRun(cs, setUp, preInstall, files).entries)
  {
    ScanBodyUnfinished(cs, setUp, preInstall, files);
    FinishedEveryCheck(cs, ScanBody(cs, setUp, preInstall, files));
  }

  lemma Reassociate<T>(a: seq<T>, b: seq<T>, c: seq<T>, d: seq<T>)
    ensures a + b + c + d == (a + b) + (c + d)
  {
  }

  lemma Regroup<T>(a: seq<T>, p: seq<T>, s: seq<T>, t: seq<T>)
    ensures a + (p + s + t) == (a + p) + s + t
  {
  }

  /** When only the suffix tells of the finished scan, nothing else is told after it. */
  lemma FinishedScanLast(prefix: seq<Entry>, suffix: seq<Entry>)
    requires NotifiesOnly(prefix, IsNotFinishedScan) && NotifiesOnly(suffix, IsFinishedScan)
    ensures var e := prefix + suffix;
      forall a, b :: 0 <= a < b < |e| && e[a].Notified? && e[a].event == FinishedScan && e[b].Notified? ==>
        e[b].event == FinishedScan
  {
    var e := prefix + suffix;
    assert forall k :: 0 <= k < |prefix| ==> e[k] == prefix[k];
    assert forall k :: |prefix| <= k < |e| ==> e[k] == suffix[k - |prefix|];
  }

  /** Check `i` is told the scan started before it is told of any package. */
  predicate StartedFirst(e: seq<Entry>, i: nat) {
    forall j :: 0 <= j < |e| && e[j].Notified? && e[j].check == i && e[j].event.IsPackageEvent() ==>
      exists k :: 0 <= k < j && e[k] == Notified(i, StartedScan)
  }

  /** A trace that tells check `i` the scan started before anyone hears of a package. */
  lemma StartedFirstAfterStart(e: seq<Entry>, head: seq<Entry>, started: seq<Entry>, rest: seq<Entry>, i: nat)
    requires e == head + started + rest
    requires NotifiesOnly(head + started, IsNotPackageEvent)
    requires Notified(i, StartedScan) in started
    ensures StartedFirst(e, i)
  {
    var prefix := head + started;
    var k0 :| 0 <= k0 < |started| && started[k0] == Notified(i, StartedScan);
    var at := |head| + k0;
    assert prefix[at] == Notified(i, StartedScan);
    assert e == prefix + rest;
    assert forall j :: 0 <= j < |prefix| ==> e[j] == prefix[j];
    forall j | 0 <= j < |e| && e[j].Notified? && e[j].check == i && e[j].event.IsPackageEvent()
      ensures exists k :: 0 <= k < j && e[k] == Notified(i, StartedScan)
    {
      assert e[at] == Notified(i, StartedScan);
      assert at < j;
    }
  }

  lemma StartedFirstWithoutPackages(e: seq<Entry>, i: nat)
    requires NotifiesOnly(e, IsNotPackageEvent)
    ensures StartedFirst(e, i)
  {
  }

  /** What follows a trace with the start first, and tells of no package, keeps the start first. */
  lemma StartedFirstExtended(prefix: seq<Entry>, rest: seq<Entry>, i: nat)
    requires StartedFirst(prefix, i) && NotifiesOnly(rest, IsNotPackageEvent)
    ensures StartedFirst(prefix + rest, i)
  {
    var e := prefix + rest;
    forall j | 0 <= j < |e| && e[j].Notified? && e[j].check == i && e[j].event.IsPackageEvent()
      ensures exists k :: 0 <= k < j && e[k] == Notified(i, StartedScan)
    {
      if j >= |prefix| {
        assert false;
      }
      assert e[j] == prefix[j];
      var k :| 0 <= k < j && prefix[k] == Notified(i, StartedScan);
      assert e[k] == prefix[k];
    }
  }

  /** Up to the moment the checks are started, no check has heard of a package. */
  lemma SetUpQuiet(cs: Checks, preInstall: seq<Package>)
    ensures NotifiesOnly([ListenerStartedScan] + AllFilesRun(cs, preInstall, true).entries +
                         Broadcast(cs, StartedScan).entries, IsNotPackageEvent)
  {
    var pre := AllFilesRun(cs, preInstall, true).entries;
    FilesRunEvents(cs, preInstall, true, |preInstall|);
    PackageEventsNotify(pre, true);
    ReactionsInOrder(cs, StartedScan, cs.count);
    NotifiesOnlyJoin([ListenerStartedScan], pre, IsNotPackageEvent);
    NotifiesOnlyJoin([ListenerStartedScan] + pre, Broadcast(cs, StartedScan).entries, IsNotPackageEvent);
  }

  /** A completed start of the checks notifies each of them. */
  lemma StartedReachesAll(cs: Checks, i: nat)
    requires i < cs.count && Broadcast(cs, StartedScan).outcome.Completed?
    ensures Notified(i, StartedScan) in Broadcast(cs, StartedScan).entries
  {
    ReactionsInOrder(cs, StartedScan, cs.count);
    ReactionsOutcome(cs, StartedScan, cs.count);
    assert Reaches(cs, StartedScan, i);
  }

  /** When set-up, pre-install and the start of the checks completed, the checks are started before the files. */
  lemma StartedFirstWhenSetUp(cs: Checks, setUp: Option<Exception>, preInstall: seq<Package>,
                              files: Option<seq<Package>>, i: nat)
    requires i < cs.count
    requires setUp.None? && AllFilesRun(cs, preInstall, true).outcome.Completed?
    requires Broadcast(cs, StartedScan).outcome.Completed?
    ensures StartedFirst([ListenerStartedScan] + ScanBody(cs, setUp, preInstall, files).entries, i)
  {
    var pre := AllFilesRun(cs, preInstall, true).entries;
    var started := Broadcast(cs, StartedScan).entries;
    var scanned := AllFilesRun(cs, files.GetOrElse([]), false).entries;
    var head := [ListenerStartedScan] + pre;
    var body := ScanBody(cs, setUp, preInstall, files).entries;
    assert body == pre + started + scanned;
    Regroup([ListenerStartedScan], pre, started, scanned);
    SetUpQuiet(cs, preInstall);
    StartedReachesAll(cs, i);
    StartedFirstAfterStart([ListenerStartedScan] + body, head, started, scanned, i);
  }

  /** Within the body of a scan, each check is told the scan started before it is told of any package. */
  lemma BodyStartsChecksFirst(cs: Checks, setUp: Option<Exception>, preInstall: seq<Package>,
                              files: Option<seq<Package>>, i: nat)
    requires i < cs.count
    ensures StartedFirst([ListenerStartedScan] + ScanBody(cs, setUp, preInstall, files).entries, i)
  {
    var pre := AllFilesRun(cs, preInstall, true);
    var started := Broadcast(cs, StartedScan);
    if setUp.None? && pre.outcome.Completed? && started.outcome.Completed? {
      StartedFirstWhenSetUp(cs, setUp, preInstall, files, i);
    } else {
      var body := ScanBody(cs, setUp, preInstall, files).entries;
      if setUp.None? {
        FilesRunEvents(cs, preInstall, true, |preInstall|);
        PackageEventsNotify(pre.entries, true);
        ReactionsInOrder(cs, StartedScan, cs.count);
        ThenNotifiesOnly(pre, started, IsNotPackageEvent);
        assert body == Then(pre, started).entries;
      }
      NotifiesOnlyJoin([ListenerStartedScan], body, IsNotPackageEvent);
      StartedFirstWithoutPackages([ListenerStartedScan] + body, i);
    }
  }

  /** Finishing the scan tells no check of a package, so it keeps the start of every check first. */
  lemma FinishedKeepsStartFirst(cs: Checks, body: Run, i: nat)
    requires StartedFirst([ListenerStartedScan] + body.entries, i)
    ensures StartedFirst(Finished(cs, body).entries, i)
  {
    var fin := Broadcast(cs, FinishedScan);
    var tail: seq<Entry> := if fin.outcome.Completed? then [ListenerFinishedScan] else [];
    ReactionsInOrder(cs, FinishedScan, cs.count);
    NotifiesOnlyJoin(fin.entries, tail, IsNotPackageEvent);
    Reassociate([ListenerStartedScan], body.entries, fin.entries, tail);
    StartedFirstExtended([ListenerStartedScan] + body.entries, fin.entries + tail, i);
  }

  /** Each check is told the scan started before it is told of any package. */
  lemma ScanStartsChecksFirst(cs: Checks, setUp: Option<Exception>, preInstall: seq<Package>,
                              files: Option<seq<Package>>, i: nat)
    requires i < cs.count
    ensures StartedFirst(ScanRun(cs, setUp, preInstall, files).entries, i)
  {
    BodyStartsChecksFirst(cs, setUp, preInstall, files, i);
    FinishedKeepsStartFirst(cs, ScanBody(cs, setUp, preInstall, files), i);
  }

  /** The body of a scan completes exactly when set-up, every pre-install package, the start of the checks and every file complete. */
  lemma ScanBodyCompletes(cs: Checks, setUp: Option<Exception>, preInstall: seq<Package>, files: Option<seq<Package>>)
    ensures ScanBody(cs, setUp, preInstall, files).outcome.Completed? <==>
      setUp.None? &&
      (forall k :: 0 <= k < |preInstall| ==> FileCompletes(cs, preInstall[k], true)) &&
      Quiet(cs, StartedScan) &&
      (forall k :: 0 <= k < |files.GetOrElse([])| ==> FileCompletes(cs, files.GetOrElse([])[k], false))
  {
    FilesRunCompletes(cs, preInstall, true, |preInstall|);
    FilesRunCompletes(cs, files.GetOrElse([]), false, |files.GetOrElse([])|);
    ReactionsOutcome(cs, StartedScan, cs.count);
    UncaughtReachesAll(cs, StartedScan);
  }

  /**
   * After a body, the scan returns reports exactly when the body completed and no check threw on
   * `finishedScan`: the error listener's report first, then one per check in list order. An exception from a
   * check on `finishedScan` (the first such check's) is what the scan throws; otherwise a repository failure
   * of the body becomes `AbortedScanException` and anything else the body threw escapes as itself.
   */
  lemma FinishedOutcome(cs: Checks, body: Run)
    ensures var r := Finished(cs, body).result;
      (r.Success? <==> body.outcome.Completed? && Quiet(cs, FinishedScan)) &&
      (r.Success? ==>
         |r.value| == cs.count + 1 && r.value[0] == ErrorListenerReport &&
         (forall k :: 1 <= k <= cs.count ==> r.value[k] == CheckReport(k - 1))) &&
      (!Quiet(cs, FinishedScan) ==>
         exists i :: 0 <= i < cs.count && Reaches(cs, FinishedScan, i) && cs.throws(i, FinishedScan).Some? &&
           r == Failure(cs.throws(i, FinishedScan).value)) &&
      (Quiet(cs, FinishedScan) && body.outcome.Threw? ==>
         r == Failure(if IsRepositoryException(body.outcome.error) then Aborted else body.outcome.error))
  {
    ReactionsOutcome(cs, FinishedScan, cs.count);
    UncaughtReachesAll(cs, FinishedScan);
  }

  /**
   * The scan returns reports exactly when set-up, every pre-install package, the start of the checks and
   * every file completed and no check threw on `finishedScan`; what it throws otherwise is as
   * `FinishedOutcome` says of its body.
   */
  lemma ScanOutcome(cs: Checks, setUp: Option<Exception>, preInstall: seq<Package>, files: Option<seq<Package>>)
    ensures var r := ScanRun(cs, setUp, preInstall, files).result;
      var body := ScanBody(cs, setUp, preInstall, files).outcome;
      (r.Success? <==>
         setUp.None? &&
         (forall k :: 0 <= k < |preInstall| ==> FileCompletes(cs, preInstall[k], true)) &&
         Quiet(cs, StartedScan) &&
         (forall k :: 0 <= k < |files.GetOrElse([])| ==> FileCompletes(cs, files.GetOrElse([])[k], false)) &&
         Quiet(cs, FinishedScan)) &&
      (r.Success? ==>
         |r.value| == cs.count + 1 && r.value[0] == ErrorListenerReport &&
         (forall k :: 1 <= k <= cs.count ==> r.value[k] == CheckReport(k - 1))) &&
      (!Quiet(cs, FinishedScan) ==>
         exists i :: 0 <= i < cs.count && Reaches(cs, FinishedScan, i) && cs.throws(i, FinishedScan).Some? &&
           r == Failure(cs.throws(i, FinishedScan).value)) &&
      (Quiet(cs, FinishedScan) && body.Threw? ==>
         r == Failure(if IsRepositoryException(body.error) then Aborted else body.error))
  {
    ScanBodyCompletes(cs, setUp, preInstall, files);
    FinishedOutcome(cs, ScanBody(cs, setUp, preInstall, files));
  }

  /** The engine, with the trace of everything the checks and the error listener were told. */
  class OakMachine {
    const checks: Checks
    var trace: seq<Entry>

    constructor (checks: Checks)
      ensures this.checks == checks && trace == []
    {
      this.checks := checks;
      trace := [];
    }

    /** `progressChecks.forEach(handler -> ...)`, left at the first exception that escapes a handler. */
    method Notify(ev: Event) returns (outcome: Outcome)
      modifies this
      ensures trace == old(trace) + Broadcast(checks, ev).entries
      ensures outcome == Broadcast(checks, ev).outcome
    {
      var k := 0;
      while k < checks.count
        invariant k <= checks.count
        invariant ReactionsOf(checks, ev, k).outcome.Completed?
        invariant trace == old(trace) + ReactionsOf(checks, ev, k).entries
      {
        ghost var mid := trace;
        outcome := React(k, ev);
        ThenStep(old(trace), mid, trace, ReactionsOf(checks, ev, k), Reaction(checks, k, ev));
        k := k + 1;
        if outcome.Threw? {
          ReactionsFailureEnds(checks, ev, k, checks.count);
          return;
        }
      }
      return Completed;
    }

    /**
     * The body of the `forEach` in `Notify`: one check hears `ev`; an exception caught there is reported to
     * the error listener, any other is returned.
     */
    method React(k: nat, ev: Event) returns (outcome: Outcome)
      modifies this
      ensures trace == old(trace) + Reaction(checks, k, ev).entries
      ensures outcome == Reaction(checks, k, ev).outcome
    {
      trace := trace + [Notified(k, ev)];
      outcome := Completed;
      var thrown := checks.throws(k, ev);
      if thrown.Some? {
        if ev.Catches(thrown.value) {
          if ev.IsPathEvent() {
            trace := trace + [ListenerPathError(k, ev.id, ev.path)];
          } else {
            trace := trace + [ListenerError(k, ev.id)];
          }
        } else {
          outcome := Threw(thrown.value);
        }
      }
    }

    method Announce(preInstall: bool, ev: Event) returns (outcome: Outcome)
      modifies this
      ensures trace == old(trace) + Announcement(checks, preInstall, ev).entries
      ensures outcome == Announcement(checks, preInstall, ev).outcome
    {
      outcome := Completed;
      if !preInstall {
        outcome := Notify(ev);
      }
    }

    /** `ImporterListenerAdapter.onMessage` / `onError`. */
    method OnMessage(preInstall: bool, id: PackageId, m: ImporterMessage)
      modifies this
      ensures trace == old(trace) + MessageEntries(checks, preInstall, id, m)
    {
      match m
      case Error(path) =>
        trace := trace + [ImporterError(id, path)];
      case Progress(action, path, readable) =>
        if preInstall {
          return;
        }
        if path.Some? && JavaString.StartsWith(path.value, "/") {
          if action == "D" || action == "!" {
            var heard := Notify(DeletedPath(id, path.value));
          } else if !readable {
            trace := trace + [ImporterError(id, path)];
          } else {
            var heard := Notify(ImportedPath(id, path.value));
          }
        }
    }

    /** The importer working through its messages. */
    method Track(preInstall: bool, id: PackageId, ms: seq<ImporterMessage>)
      modifies this
      ensures trace == old(trace) + AllMessages(checks, preInstall, id, ms)
    {
      for k := 0 to |ms|
        invariant trace == old(trace) + MessagesEntries(checks, preInstall, id, ms, k)
      {
        OnMessage(preInstall, id, ms[k]);
      }
    }

    /** `processPackage`, returning what it throws. */
    method ProcessPackage(pkg: Package, preInstall: bool) returns (outcome: Outcome)
      modifies this
      ensures trace == old(trace) + PackageRun(checks, pkg, preInstall).entries
      ensures outcome == PackageRun(checks, pkg, preInstall).outcome
      decreases pkg, 1, 0
    {
      Track(preInstall, pkg.id, pkg.subpackageMessages);
      if pkg.subpackageExtraction.Some? {
        return Threw(pkg.subpackageExtraction.value);
      }
      if !pkg.valid {
        return Threw(NotValid(pkg.id));
      }
      ghost var acc := Run(AllMessages(checks, preInstall, pkg.id, pkg.subpackageMessages), Completed);
      ghost var next := Announcement(checks, preInstall, BeforeExtract(pkg.id, Ids(pkg.subpackages)));
      ghost var mid := trace;
      outcome := Announce(preInstall, BeforeExtract(pkg.id, Ids(pkg.subpackages)));
      ThenStep(old(trace), mid, trace, acc, next);
      acc := Then(acc, next);
      if outcome.Threw? {
        return;
      }
      next := Run(AllMessages(checks, preInstall, pkg.id, pkg.extractMessages), OutcomeOf(pkg.extraction));
      mid := trace;
      Track(preInstall, pkg.id, pkg.extractMessages);
      outcome := OutcomeOf(pkg.extraction);
      ThenStep(old(trace), mid, trace, acc, next);
      acc := Then(acc, next);
      if outcome.Threw? {
        return;
      }
      next := Announcement(checks, preInstall, AfterExtract(pkg.id));
      mid := trace;
      outcome := Announce(preInstall, AfterExtract(pkg.id));
      ThenStep(old(trace), mid, trace, acc, next);
      acc := Then(acc, next);
      if outcome.Threw? {
        return;
      }
      next := SubpackagesRun(checks, pkg, preInstall, |pkg.subpackages|);
      mid := trace;
      outcome := ProcessSubpackages(pkg, preInstall);
      ThenStep(old(trace), mid, trace, acc, next);
    }

    /** The loop of `processPackage` over the extracted subpackages, in order, left at the first that throws. */
    method ProcessSubpackages(pkg: Package, preInstall: bool) returns (outcome: Outcome)
      modifies this
      ensures trace == old(trace) + SubpackagesRun(checks, pkg, preInstall, |pkg.subpackages|).entries
      ensures outcome == SubpackagesRun(checks, pkg, preInstall, |pkg.subpackages|).outcome
      decreases pkg, 0, 0
    {
      for k := 0 to |pkg.subpackages|
        invariant SubpackagesRun(checks, pkg, preInstall, k).outcome.Completed?
        invariant trace == old(trace) + SubpackagesRun(checks, pkg, preInstall, k).entries
      {
        ghost var mid := trace;
        outcome := ProcessSubpackage(pkg.subpackages[k], pkg.id, preInstall);
        ThenStep(old(trace), mid, trace, SubpackagesRun(checks, pkg, preInstall, k),
                 SubpackageRun(checks, pkg.subpackages[k], pkg.id, preInstall));
        if outcome.Threw? {
          SubpackageFailureEnds(checks, pkg, preInstall, k + 1, |pkg.subpackages|);
          return;
        }
      }
      return Completed;
    }

    /** `processSubpackage`, returning what escapes its `catch`. */
    method ProcessSubpackage(sub: Package, parentId: PackageId, preInstall: bool) returns (outcome: Outcome)
      modifies this
      ensures trace == old(trace) + SubpackageRun(checks, sub, parentId, preInstall).entries
      ensures outcome == SubpackageRun(checks, sub, parentId, preInstall).outcome
      decreases sub, 2, 0
    {
      var body: Outcome;
      if sub.opening.OpenFails? {
        body := Threw(sub.opening.error);
      } else {
        body := Announce(preInstall, IdentifySubpackage(sub.id, parentId));
        if body.Completed? {
          if sub.opening.Missing? {
            body := Threw(NullPointer);
          } else {
            ghost var mid := trace;
            body := ProcessPackage(sub, preInstall);
            ThenStep(old(trace), mid, trace, Announcement(checks, preInstall, IdentifySubpackage(sub.id, parentId)),
                     PackageRun(checks, sub, preInstall));
          }
        }
      }
      assert trace == old(trace) + SubpackageBody(checks, sub, parentId, preInstall).entries;
      if body.Threw? && IsPackageFailure(body.error) {
        trace := trace + [SubpackageError(sub.id)];
        outcome := Completed;
      } else {
        outcome := body;
      }
    }

    /** `processPackageFile`, returning what it throws. */
    method ProcessPackageFile(pkg: Package, preInstall: bool) returns (outcome: Outcome)
      modifies this
      ensures trace == old(trace) + FileRun(checks, pkg, preInstall).entries
      ensures outcome == FileRun(checks, pkg, preInstall).outcome
    {
      var body: Outcome;
      if pkg.opening.OpenFails? {
        body := Threw(pkg.opening.error);
      } else if pkg.opening.Missing? {
        body := Threw(NullPointer);
      } else {
        body := Announce(preInstall, IdentifyPackage(pkg.id));
        if body.Completed? {
          ghost var mid := trace;
          body := ProcessPackage(pkg, preInstall);
          ThenStep(old(trace), mid, trace, Announcement(checks, preInstall, IdentifyPackage(pkg.id)),
                   PackageRun(checks, pkg, preInstall));
        }
      }
      assert trace == old(trace) + FileBody(checks, pkg, preInstall).entries;
      if body.Threw? && IsPackageFailure(body.error) {
        outcome := Threw(Aborted);
      } else {
        outcome := body;
      }
    }

    /** The `for (File file : ...)` loops of `scanPackages`, left at the first file that throws. */
    method ProcessFiles(files: seq<Package>, preInstall: bool) returns (outcome: Outcome)
      modifies this
      ensures trace == old(trace) + AllFilesRun(checks, files, preInstall).entries
      ensures outcome == AllFilesRun(checks, files, preInstall).outcome
    {
      ghost var done := Nothing;
      outcome := Completed;
      var k := 0;
      while k < |files| && outcome.Completed?
        invariant k <= |files| && done == FilesRun(checks, files, preInstall, k)
        invariant trace == old(trace) + done.entries && outcome == done.outcome
      {
        outcome, done := ProcessFileAt(files, k, preInstall, old(trace), done);
        k := k + 1;
      }
      FilesRunExit(checks, files, preInstall, k);
    }

    /** One turn of the files loops of `scanPackages`, after the files before it (`done`) completed. */
    method ProcessFileAt(files: seq<Package>, k: nat, preInstall: bool, ghost start: seq<Entry>, ghost done: Run)
      returns (outcome: Outcome, ghost after: Run)
      requires k < |files| && done == FilesRun(checks, files, preInstall, k)
      requires done.outcome.Completed? && trace == start + done.entries
      modifies this
      ensures after == FilesRun(checks, files, preInstall, k + 1)
      ensures trace == start + after.entries && outcome == after.outcome
    {
      ghost var mid := trace;
      outcome := ProcessPackageFile(files[k], preInstall);
      FilesRunStep(checks, files, preInstall, k);
      after := Then(done, FileRun(checks, files[k], preInstall));
      ThenStep(start, mid, trace, done, FileRun(checks, files[k], preInstall));
    }

    /** The `try` block of `scanPackages`: install the pre-install packages, start the checks, scan the files. */
    method RunScanBody(setUp: Option<Exception>, preInstall: seq<Package>, files: Option<seq<Package>>)
      returns (outcome: Outcome)
      modifies this
      ensures trace == old(trace) + ScanBody(checks, setUp, preInstall, files).entries
      ensures outcome == ScanBody(checks, setUp, preInstall, files).outcome
    {
      if setUp.Some? {
        return Threw(setUp.value);
      }
      outcome := ProcessFiles(preInstall, true);
      if outcome.Threw? {
        return;
      }
      ghost var acc := AllFilesRun(checks, preInstall, true);
      ghost var mid := trace;
      outcome := Notify(StartedScan);
      ThenStep(old(trace), mid, trace, acc, Broadcast(checks, StartedScan));
      acc := Then(acc, Broadcast(checks, StartedScan));
      if outcome.Threw? {
        return;
      }
      mid := trace;
      outcome := Completed;
      if files.Some? {
        outcome := ProcessFiles(files.value, false);
      }
      ThenStep(old(trace), mid, trace, acc, AllFilesRun(checks, files.GetOrElse([]), false));
    }

    /** `scanPackages`. */
    method ScanPackages(setUp: Option<Exception>, preInstall: seq<Package>, files: Option<seq<Package>>)
      returns (r: Result<seq<ReportSource>>)
      modifies this
      ensures trace == old(trace) + ScanRun(checks, setUp, preInstall, files).entries
      ensures r == ScanRun(checks, setUp, preInstall, files).result
    {
      ghost var body := ScanBody(checks, setUp, preInstall, files);
      trace := trace + [ListenerStartedScan];
      ghost var begun := trace;
      var outcome := RunScanBody(setUp, preInstall, files);
      Extended(trace, old(trace), begun, [ListenerStartedScan], body.entries);
      if outcome.Threw? && IsRepositoryException(outcome.error) {
        outcome := Threw(Aborted);
      }
      ghost var mid := trace;
      var finished := Notify(FinishedScan);
      Extended(trace, old(trace), mid, [ListenerStartedScan] + body.entries, Broadcast(checks, FinishedScan).entries);
      if finished.Threw? {
        return Failure(finished.error);
      }
      trace := trace + [ListenerFinishedScan];
      if outcome.Threw? {
        r := Failure(outcome.error);
      } else {
        r := Success(Reports(checks.count));
      }
    }
  }
}
