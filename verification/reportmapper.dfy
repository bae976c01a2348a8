/**
 * The JSON form of scan reports: each report an object with its check name under `reporterUrl` and its
 * violations under `violations`, each violation an object with `severity`, `description` and `packages`, and
 * the reports under `reports` in the root object. Absent fields are not written; absent or mistyped fields read
 * back as defaults.
 */
module ReportMappers {
  import opened Wrappers
  import opened JavaResult
  import opened Violations

  const KeyReports: string := "reports"
  const KeyCheckName: string := "reporterUrl"
  const KeyViolations: string := "violations"
  const KeyDescription: string := "description"
  const KeySeverity: string := "severity"
  const KeyPackages: string := "packages"

  /**
   * An org.json value: an object, an array, a Java string, a value implementing `JSONString` (which the
   * parser never produces), `JSONObject.NULL`, or any other value (a number or boolean) by its text.
   */
  datatype OrgJson =
    | JObject(fields: map<string, OrgJson>)
    | JArray(items: seq<OrgJson>)
    | JString(s: string)
    | JStringer(text: string)
    | JNull
    | JOther(text: string)

  /** `toString` of an object or array: its JSON text, which this model does not produce. */
  type Render = OrgJson -> string

  /** `PackageId.fromString`: the identifier a text denotes, none when it is malformed. */
  type PackageParser = string -> Option<PackageId>

  /** `optString(key, defaultValue)`: the value's text, or the default when the key is absent or null. */
  function OptString(obj: map<string, OrgJson>, key: string, defaultValue: string, render: Render): (r: string)
    ensures key !in obj || obj[key] == JNull ==> r == defaultValue
    ensures key in obj && obj[key].JString? ==> r == obj[key].s
  {
    if key !in obj then defaultValue
    else
      match obj[key]
      case JNull => defaultValue
      case JString(s) => s
      case JStringer(text) => text
      case JOther(text) => text
      case _ => render(obj[key])
  }

  /** `optJSONArray(key)`: the array under the key, none when absent or not an array. */
  function OptArray(obj: map<string, OrgJson>, key: string): (r: Option<seq<OrgJson>>)
    ensures r.Some? <==> key in obj && obj[key].JArray?
    ensures r.Some? ==> obj[key] == JArray(r.value)
  {
    if key in obj && obj[key].JArray? then Some(obj[key].items) else None
  }

  /** The objects among some array items, in order: `filter(v -> v instanceof JSONObject)`. */
  function Objects(items: seq<OrgJson>): (r: seq<map<string, OrgJson>>)
    ensures |r| <= |items|
    ensures forall m :: m in r ==> JObject(m) in items
  {
    if |items| == 0 then []
    else
      var last := items[|items| - 1];
      Objects(items[..|items| - 1]) + (if last.JObject? then [last.fields] else [])
  }

  /** Filtering distributes over concatenation, and a non-object is dropped wherever it stands. */
  lemma {:induction false} ObjectsAppend(a: seq<OrgJson>, b: seq<OrgJson>)
    ensures Objects(a + b) == Objects(a) + Objects(b)
    decreases |b|
  {
    if |b| > 0 {
      var init := b[..|b| - 1];
      var last := b[|b| - 1];
      assert (a + b)[..|a + b| - 1] == a + init;
      assert (a + b)[|a + b| - 1] == last;
      ObjectsAppend(a, init);
      var tail := if last.JObject? then [last.fields] else [];
      assert Objects(a + b) == Objects(a) + Objects(init) + tail;
      assert Objects(b) == Objects(init) + tail;
    } else {
      assert a + b == a;
    }
  }

  /** Entries that are not objects are skipped. */
  lemma NonObjectSkipped(before: seq<OrgJson>, x: OrgJson, after: seq<OrgJson>)
    requires !x.JObject?
    ensures Objects(before + [x] + after) == Objects(before + after)
  {
    ObjectsAppend(before + [x], after);
    ObjectsAppend(before, [x]);
    ObjectsAppend(before, after);
    assert Objects([x]) == Objects([]) + [] by { assert [x][..0] == []; }
  }

  /**
   * The package identifiers of a violation's `packages` array as written: only values implementing
   * `JSONString` are kept, then those that parse.
   */
  function PackagesAsWritten(items: seq<OrgJson>, fromString: PackageParser): (r: seq<PackageId>)
    ensures |r| <= |items|
  {
    if |items| == 0 then []
    else
      var last := items[|items| - 1];
      PackagesAsWritten(items[..|items| - 1], fromString) +
        (if last.JStringer? && fromString(last.text).Some? then [fromString(last.text).value] else [])
  }

  /** The package identifiers of a `packages` array: every string among the items that parses, in order. */
  function Packages(items: seq<OrgJson>, fromString: PackageParser): (r: seq<PackageId>)
    ensures |r| <= |items|
    ensures |items| == 1 ==>
      (r != [] <==> (items[0].JString? && fromString(items[0].s).Some?) ||
                    (items[0].JStringer? && fromString(items[0].text).Some?))
    ensures |items| == 1 && items[0].JString? && fromString(items[0].s).Some? ==> r == [fromString(items[0].s).value]
    ensures |items| == 1 && items[0].JStringer? && fromString(items[0].text).Some? ==>
      r == [fromString(items[0].text).value]
  {
    if |items| == 0 then []
    else
      var last := items[|items| - 1];
      var text := if last.JString? then Some(last.s) else if last.JStringer? then Some(last.text) else None;
      Packages(items[..|items| - 1], fromString) +
        (if text.Some? && fromString(text.value).Some? then [fromString(text.value).value] else [])
  }

  /** Reading packages distributes over concatenation: with the one-item case, the filter keeps order. */
  lemma {:induction false} PackagesAppend(a: seq<OrgJson>, b: seq<OrgJson>, fromString: PackageParser)
    ensures Packages(a + b, fromString) == Packages(a, fromString) + Packages(b, fromString)
    decreases |b|
  {
    if |b| > 0 {
      var init := b[..|b| - 1];
      assert (a + b)[..|a + b| - 1] == a + init;
      assert (a + b)[|a + b| - 1] == b[|b| - 1];
      PackagesAppend(a, init, fromString);
    } else {
      assert a + b == a;
    }
  }

  /** The `packages` array written for some identifiers: their texts, as Java strings. */
  function PackagesToJson(packages: seq<PackageId>): (r: seq<OrgJson>)
    ensures |r| == |packages| && forall i :: 0 <= i < |packages| ==> r[i] == JString(packages[i])
  {
    if |packages| == 0 then [] else PackagesToJson(packages[..|packages| - 1]) + [JString(packages[|packages| - 1])]
  }

  /** Identifiers that `PackageId.fromString` gives back from their own text. */
  predicate Reparses(packages: seq<PackageId>, fromString: PackageParser) {
    forall p :: p in packages ==> fromString(p) == Some(p)
  }

  /**
   * As written, the reader keeps no package of what the writer wrote: the writer writes Java strings, which do
   * not implement `JSONString`, and neither does anything the JSON parser produces.
   */
  lemma {:induction false} WrittenPackagesDroppedAsWritten(packages: seq<PackageId>, fromString: PackageParser)
    ensures PackagesAsWritten(PackagesToJson(packages), fromString) == []
  {
    if |packages| > 0 {
      assert PackagesToJson(packages)[..|packages| - 1] == PackagesToJson(packages[..|packages| - 1]);
      WrittenPackagesDroppedAsWritten(packages[..|packages| - 1], fromString);
    }
  }

  /** A violation with one package is read back without it. */
  lemma PackageLostAsWritten(fromString: PackageParser)
    requires fromString("my_packages:example:1.0") == Some("my_packages:example:1.0")
    ensures var written := PackagesToJson(["my_packages:example:1.0"]);
      Packages(written, fromString) == ["my_packages:example:1.0"] &&
      PackagesAsWritten(written, fromString) == []
  {
    var written := PackagesToJson(["my_packages:example:1.0"]);
    assert written[..0] == [];
    WrittenPackagesDroppedAsWritten(["my_packages:example:1.0"], fromString);
  }

  /** Reading the written packages gives them back, when each reparses from its text. */
  lemma {:induction false} PackagesRoundTrip(packages: seq<PackageId>, fromString: PackageParser)
    requires Reparses(packages, fromString)
    ensures Packages(PackagesToJson(packages), fromString) == packages
  {
    if |packages| > 0 {
      var init, last := packages[..|packages| - 1], packages[|packages| - 1];
      var written := PackagesToJson(packages);
      assert written == PackagesToJson(init) + [JString(last)] by {
        assert written[..|packages| - 1] == PackagesToJson(init);
      }
      PackagesAppend(PackagesToJson(init), [JString(last)], fromString);
      PackagesRoundTrip(init, fromString);
      assert last in packages;
      assert packages == init + [last];
    }
  }

  /** `violationFromJSON`: severity MINOR and description empty by default; an unknown severity name throws. */
  function ViolationFromJson(obj: map<string, OrgJson>, render: Render, fromString: PackageParser)
    : (r: Result<Violation>)
    ensures var name := OptString(obj, KeySeverity, Minor.Name(), render);
      r.Success? <==> SeverityValueOf(name).Some?
    ensures var name := OptString(obj, KeySeverity, Minor.Name(), render);
      r.Success? ==> Some(r.value.severity) == SeverityValueOf(name)
    ensures r.Success? ==>
      r.value.description == OptString(obj, KeyDescription, "", render) &&
      (KeySeverity !in obj ==> r.value.severity == Minor) &&
      (OptArray(obj, KeyPackages).None? ==> r.value.packages == []) &&
      (OptArray(obj, KeyPackages).Some? ==> r.value.packages == Packages(OptArray(obj, KeyPackages).value, fromString))
  {
    var name := OptString(obj, KeySeverity, Minor.Name(), render);
    match SeverityValueOf(name)
    case None => Failure(Exception("IllegalArgumentException", "No enum constant Violation.Severity." + name))
    case Some(severity) =>
      var packages := match OptArray(obj, KeyPackages)
        case None => []
        case Some(items) => Packages(items, fromString);
      Success(Violation(severity, OptString(obj, KeyDescription, "", render), packages))
  }

  /** What each object reads as on its own. */
  function ViolationReads(objs: seq<map<string, OrgJson>>, render: Render, fromString: PackageParser)
    : (r: seq<Result<Violation>>)
    ensures |r| == |objs| && forall i :: 0 <= i < |objs| ==> r[i] == ViolationFromJson(objs[i], render, fromString)
  {
    seq(|objs|, i requires 0 <= i < |objs| => ViolationFromJson(objs[i], render, fromString))
  }

  lemma ViolationReadsSnoc(objs: seq<map<string, OrgJson>>, render: Render, fromString: PackageParser)
    requires |objs| > 0
    ensures ViolationReads(objs, render, fromString) ==
      ViolationReads(objs[..|objs| - 1], render, fromString) + [ViolationFromJson(objs[|objs| - 1], render, fromString)]
  {
    var init := objs[..|objs| - 1];
    assert forall i :: 0 <= i < |init| ==> init[i] == objs[i];
  }

  /**
   * The violations of some objects, in order, or the first failure: the stream collected into a list, so
   * violation `i` is what object `i` reads as, and a failure is the first failing object's.
   */
  function ViolationsFrom(objs: seq<map<string, OrgJson>>, render: Render, fromString: PackageParser)
    : (r: Result<seq<Violation>>)
    ensures r.Success? ==> |r.value| == |objs|
    ensures Collects(ViolationReads(objs, render, fromString), r)
  {
    if |objs| == 0 then Success([])
    else
      var init := objs[..|objs| - 1];
      var prior := ViolationsFrom(init, render, fromString);
      var last := ViolationFromJson(objs[|objs| - 1], render, fromString);
      ViolationReadsSnoc(objs, render, fromString);
      CollectStep(ViolationReads(init, render, fromString), last, prior);
      match prior
      case Failure(e) => Failure(e)
      case Success(vs) =>
        match last
        case Failure(e) => Failure(e)
        case Success(v) => Success(vs + [v])
  }

  /** `reportFromJSON`: the check name empty by default; the violations are the objects of its array. */
  function ReportFromJson(obj: map<string, OrgJson>, render: Render, fromString: PackageParser)
    : (r: Result<CheckReport>)
    ensures r.Success? ==> r.value.checkName == OptString(obj, KeyCheckName, "", render)
    ensures OptArray(obj, KeyViolations).None? ==> r.Success? && r.value.violations == []
    ensures OptArray(obj, KeyViolations).Some? && r.Success? ==>
      Collects(ViolationReads(Objects(OptArray(obj, KeyViolations).value), render, fromString), Success(r.value.violations))
    ensures OptArray(obj, KeyViolations).Some? && r.Failure? ==>
      Collects(ViolationReads(Objects(OptArray(obj, KeyViolations).value), render, fromString), Failure(r.error))
  {
    match OptArray(obj, KeyViolations)
    case None => Success(CheckReport(OptString(obj, KeyCheckName, "", render), []))
    case Some(items) =>
      match ViolationsFrom(Objects(items), render, fromString)
      case Failure(e) => Failure(e)
      case Success(vs) => Success(CheckReport(OptString(obj, KeyCheckName, "", render), vs))
  }

  /** What each object reads as on its own. */
  function ReportReads(objs: seq<map<string, OrgJson>>, render: Render, fromString: PackageParser)
    : (r: seq<Result<CheckReport>>)
    ensures |r| == |objs| && forall i :: 0 <= i < |objs| ==> r[i] == ReportFromJson(objs[i], render, fromString)
  {
    seq(|objs|, i requires 0 <= i < |objs| => ReportFromJson(objs[i], render, fromString))
  }

  lemma ReportReadsSnoc(objs: seq<map<string, OrgJson>>, render: Render, fromString: PackageParser)
    requires |objs| > 0
    ensures ReportReads(objs, render, fromString) ==
      ReportReads(objs[..|objs| - 1], render, fromString) + [ReportFromJson(objs[|objs| - 1], render, fromString)]
  {
    var init := objs[..|objs| - 1];
    assert forall i :: 0 <= i < |init| ==> init[i] == objs[i];
  }

  /**
   * The reports of some objects, in order, or the first failure: report `i` is what object `i` reads as, and a
   * failure is the first failing object's.
   */
  function ReportsFrom(objs: seq<map<string, OrgJson>>, render: Render, fromString: PackageParser)
    : (r: Result<seq<CheckReport>>)
    ensures r.Success? ==> |r.value| == |objs|
    ensures Collects(ReportReads(objs, render, fromString), r)
  {
    if |objs| == 0 then Success([])
    else
      var init := objs[..|objs| - 1];
      var prior := ReportsFrom(init, render, fromString);
      var last := ReportFromJson(objs[|objs| - 1], render, fromString);
      ReportReadsSnoc(objs, render, fromString);
      CollectStep(ReportReads(init, render, fromString), last, prior);
      match prior
      case Failure(e) => Failure(e)
      case Success(rs) =>
        match last
        case Failure(e) => Failure(e)
        case Success(r) => Success(rs + [r])
  }

  /** `readReportsFromReader`, after parsing: the objects of the root's `reports` array, each as a report. */
  function ReadReports(root: map<string, OrgJson>, render: Render, fromString: PackageParser)
    : (r: Result<seq<CheckReport>>)
    ensures OptArray(root, KeyReports).None? ==> r == Success([])
    ensures r.Success? && OptArray(root, KeyReports).Some? ==>
      |r.value| == |Objects(OptArray(root, KeyReports).value)|
    ensures OptArray(root, KeyReports).Some? ==> Collects(ReportReads(Objects(OptArray(root, KeyReports).value), render, fromString), r)
  {
    match OptArray(root, KeyReports)
    case None => Success([])
    case Some(items) => ReportsFrom(Objects(items), render, fromString)
  }

  /** A violation as the writer sees it: any of its fields may be null. */
  datatype NullableViolation =
    NullableViolation(severity: Option<Severity>, description: Option<string>, packages: Option<seq<PackageId>>)

  /** A report as the writer sees it: its check name or violation list may be null. */
  datatype NullableReport = NullableReport(checkName: Option<string>, violations: Option<seq<NullableViolation>>)

  /** `violationToJSON`: one key per non-null field, the severity by its name. */
  function ViolationToJson(v: NullableViolation): (r: map<string, OrgJson>)
    ensures KeySeverity in r <==> v.severity.Some?
    ensures KeyDescription in r <==> v.description.Some?
    ensures KeyPackages in r <==> v.packages.Some?
    ensures r.Keys <= {KeySeverity, KeyDescription, KeyPackages}
  {
    var withSeverity := if v.severity.Some? then map[KeySeverity := JString(v.severity.value.Name())] else map[];
    var withDescription :=
      if v.description.Some? then withSeverity[KeyDescription := JString(v.description.value)] else withSeverity;
    if v.packages.Some? then withDescription[KeyPackages := JArray(PackagesToJson(v.packages.value))]
    else withDescription
  }

  /** The `violations` array: one object per violation, in order. */
  function ViolationsToJson(vs: seq<NullableViolation>): (r: seq<OrgJson>)
    ensures |r| == |vs| && forall i :: 0 <= i < |vs| ==> r[i] == JObject(ViolationToJson(vs[i]))
  {
    if |vs| == 0 then [] else ViolationsToJson(vs[..|vs| - 1]) + [JObject(ViolationToJson(vs[|vs| - 1]))]
  }

  /** `reportToJSON`: one key per non-null field. */
  function ReportToJson(report: NullableReport): (r: map<string, OrgJson>)
    ensures KeyCheckName in r <==> report.checkName.Some?
    ensures KeyViolations in r <==> report.violations.Some?
    ensures r.Keys <= {KeyCheckName, KeyViolations}
  {
    var withName := if report.checkName.Some? then map[KeyCheckName := JString(report.checkName.value)] else map[];
    if report.violations.Some? then withName[KeyViolations := JArray(ViolationsToJson(report.violations.value))]
    else withName
  }

  /** `reportsToJSON`: one object per report, in order. */
  function ReportsToJson(reports: seq<NullableReport>): (r: seq<OrgJson>)
    ensures |r| == |reports| && forall i :: 0 <= i < |reports| ==> r[i] == JObject(ReportToJson(reports[i]))
  {
    if |reports| == 0 then [] else ReportsToJson(reports[..|reports| - 1]) + [JObject(ReportToJson(reports[|reports| - 1]))]
  }

  /** `writeReportsToWriter`: the reports under `reports` in the root object. */
  function WriteReports(reports: seq<NullableReport>): (r: map<string, OrgJson>)
    ensures r.Keys == {KeyReports} && r[KeyReports].JArray? && |r[KeyReports].items| == |reports|
  {
    map[KeyReports := JArray(ReportsToJson(reports))]
  }

  /** What a written violation reads back as: a null severity is MINOR, a null description or package list empty. */
  function ReadBack(v: NullableViolation): Violation {
    Violation(if v.severity.Some? then v.severity.value else Minor,
              if v.description.Some? then v.description.value else "",
              if v.packages.Some? then v.packages.value else [])
  }

  function ReadBackAll(vs: seq<NullableViolation>): seq<Violation> {
    if |vs| == 0 then [] else ReadBackAll(vs[..|vs| - 1]) + [ReadBack(vs[|vs| - 1])]
  }

  /** What a written report reads back as: a null check name is empty, a null violation list empty. */
  function ReadBackReport(report: NullableReport): CheckReport {
    CheckReport(if report.checkName.Some? then report.checkName.value else "",
                if report.violations.Some? then ReadBackAll(report.violations.value) else [])
  }

  function ReadBackReports(reports: seq<NullableReport>): seq<CheckReport> {
    if |reports| == 0 then [] else ReadBackReports(reports[..|reports| - 1]) + [ReadBackReport(reports[|reports| - 1])]
  }

  /** Every package identifier of some violations reparses. */
  predicate ViolationsReparse(vs: seq<NullableViolation>, fromString: PackageParser) {
    forall j :: 0 <= j < |vs| ==> (vs[j].packages.Some? ==> Reparses(vs[j].packages.value, fromString))
  }

  /** Every package identifier of some reports reparses. */
  predicate AllReparse(reports: seq<NullableReport>, fromString: PackageParser) {
    forall i :: 0 <= i < |reports| ==>
      (reports[i].violations.Some? ==> ViolationsReparse(reports[i].violations.value, fromString))
  }

  /** A written violation reads back with its fields, nulls becoming the defaults. */
  lemma ViolationRoundTrip(v: NullableViolation, render: Render, fromString: PackageParser)
    requires v.packages.Some? ==> Reparses(v.packages.value, fromString)
    ensures ViolationFromJson(ViolationToJson(v), render, fromString) == Success(ReadBack(v))
  {
    var obj := ViolationToJson(v);
    if v.severity.Some? {
      assert OptString(obj, KeySeverity, Minor.Name(), render) == v.severity.value.Name();
      assert SeverityValueOf(v.severity.value.Name()) == Some(v.severity.value);
    }
    if v.packages.Some? {
      PackagesRoundTrip(v.packages.value, fromString);
    }
  }

  /** The written violations read back in order. */
  lemma {:induction false} ViolationsRoundTrip(vs: seq<NullableViolation>, render: Render, fromString: PackageParser)
    requires ViolationsReparse(vs, fromString)
    ensures ViolationsFrom(Objects(ViolationsToJson(vs)), render, fromString) == Success(ReadBackAll(vs))
  {
    if |vs| > 0 {
      var init := vs[..|vs| - 1];
      var last := vs[|vs| - 1];
      assert ViolationsReparse(init, fromString) by {
        forall j | 0 <= j < |init| ensures init[j] == vs[j] { }
      }
      ViolationsRoundTrip(init, render, fromString);
      var json := ViolationsToJson(vs);
      assert json[..|json| - 1] == ViolationsToJson(init);
      var objs := Objects(json);
      assert objs == Objects(ViolationsToJson(init)) + [ViolationToJson(last)];
      assert objs[..|objs| - 1] == Objects(ViolationsToJson(init));
      ViolationRoundTrip(last, render, fromString);
    }
  }

  /** A written report reads back with its check name and violations, nulls becoming the defaults. */
  lemma ReportRoundTrip(report: NullableReport, render: Render, fromString: PackageParser)
    requires report.violations.Some? ==> ViolationsReparse(report.violations.value, fromString)
    ensures ReportFromJson(ReportToJson(report), render, fromString) == Success(ReadBackReport(report))
  {
    if report.violations.Some? {
      ViolationsRoundTrip(report.violations.value, render, fromString);
    }
  }

  /** The written reports read back in order. */
  lemma {:induction false} ReportsFromWritten(reports: seq<NullableReport>, render: Render, fromString: PackageParser)
    requires AllReparse(reports, fromString)
    ensures ReportsFrom(Objects(ReportsToJson(reports)), render, fromString) == Success(ReadBackReports(reports))
  {
    if |reports| > 0 {
      var init := reports[..|reports| - 1];
      var last := reports[|reports| - 1];
      assert AllReparse(init, fromString) by {
        forall j | 0 <= j < |init| ensures init[j] == reports[j] { }
      }
      ReportsFromWritten(init, render, fromString);
      var json := ReportsToJson(reports);
      assert json[..|json| - 1] == ReportsToJson(init);
      var objs := Objects(json);
      assert objs == Objects(ReportsToJson(init)) + [ReportToJson(last)];
      assert objs[..|objs| - 1] == Objects(ReportsToJson(init));
      ReportRoundTrip(last, render, fromString);
    }
  }

  /**
   * Writing reports and reading them back gives every report back, in order, with its check name and
   * violations, null fields becoming their defaults, when every package identifier reparses from its text.
   */
  lemma ReportsRoundTrip(reports: seq<NullableReport>, render: Render, fromString: PackageParser)
    requires AllReparse(reports, fromString)
    ensures ReadReports(WriteReports(reports), render, fromString) == Success(ReadBackReports(reports))
  {
    ReportsFromWritten(reports, render, fromString);
  }

  /** A violation with no null field. */
  function PresentViolation(v: Violation): NullableViolation {
    NullableViolation(Some(v.severity), Some(v.description), Some(v.packages))
  }

  function PresentViolations(vs: seq<Violation>): (r: seq<NullableViolation>)
    ensures |r| == |vs|
    ensures forall j :: 0 <= j < |vs| ==> r[j].packages == Some(vs[j].packages)
  {
    if |vs| == 0 then [] else PresentViolations(vs[..|vs| - 1]) + [PresentViolation(vs[|vs| - 1])]
  }

  /** Violations without nulls read back as themselves. */
  lemma {:induction false} ReadBackPresentViolations(vs: seq<Violation>)
    ensures ReadBackAll(PresentViolations(vs)) == vs
  {
    if |vs| > 0 {
      var init, last := vs[..|vs| - 1], vs[|vs| - 1];
      assert vs == init + [last];
      calc {
        ReadBackAll(PresentViolations(vs));
        { PresentViolationsSnoc(init, last); }
        ReadBackAll(PresentViolations(init) + [PresentViolation(last)]);
        { ReadBackAllSnoc(PresentViolations(init), PresentViolation(last)); }
        ReadBackAll(PresentViolations(init)) + [ReadBack(PresentViolation(last))];
        { ReadBackPresentViolations(init); }
        init + [last];
      }
    }
  }

  lemma PresentViolationsSnoc(init: seq<Violation>, v: Violation)
    ensures PresentViolations(init + [v]) == PresentViolations(init) + [PresentViolation(v)]
  {
    assert (init + [v])[..|init|] == init;
  }

  lemma ReadBackAllSnoc(init: seq<NullableViolation>, v: NullableViolation)
    ensures ReadBackAll(init + [v]) == ReadBackAll(init) + [ReadBack(v)]
  {
    assert (init + [v])[..|init|] == init;
  }

  /** A report with no null field. */
  function Present(report: CheckReport): NullableReport {
    NullableReport(Some(report.checkName), Some(PresentViolations(report.violations)))
  }

  function PresentReports(reports: seq<CheckReport>): (r: seq<NullableReport>)
    ensures |r| == |reports| && forall i :: 0 <= i < |reports| ==> r[i] == Present(reports[i])
  {
    if |reports| == 0 then [] else PresentReports(reports[..|reports| - 1]) + [Present(reports[|reports| - 1])]
  }

  /** A report without nulls reads back as itself. */
  lemma {:induction false} ReadBackPresent(reports: seq<CheckReport>)
    ensures ReadBackReports(PresentReports(reports)) == reports
  {
    if |reports| > 0 {
      var init, last := reports[..|reports| - 1], reports[|reports| - 1];
      assert reports == init + [last];
      calc {
        ReadBackReports(PresentReports(reports));
        { PresentReportsSnoc(init, last); }
        ReadBackReports(PresentReports(init) + [Present(last)]);
        { ReadBackReportsSnoc(PresentReports(init), Present(last)); }
        ReadBackReports(PresentReports(init)) + [ReadBackReport(Present(last))];
        { ReadBackPresent(init); ReadBackPresentViolations(last.violations); }
        init + [last];
      }
    }
  }

  lemma PresentReportsSnoc(init: seq<CheckReport>, report: CheckReport)
    ensures PresentReports(init + [report]) == PresentReports(init) + [Present(report)]
  {
    assert (init + [report])[..|init|] == init;
  }

  lemma ReadBackReportsSnoc(init: seq<NullableReport>, report: NullableReport)
    ensures ReadBackReports(init + [report]) == ReadBackReports(init) + [ReadBackReport(report)]
  {
    assert (init + [report])[..|init|] == init;
  }

  /** Writing then reading preserves check names and violations exactly. */
  lemma PresentReportsRoundTrip(reports: seq<CheckReport>, render: Render, fromString: PackageParser)
    requires forall r, v :: r in reports && v in r.violations ==> Reparses(v.packages, fromString)
    ensures ReadReports(WriteReports(PresentReports(reports)), render, fromString) == Success(reports)
  {
    var written := PresentReports(reports);
    forall i | 0 <= i < |written|
      ensures written[i].violations.Some? ==> ViolationsReparse(written[i].violations.value, fromString)
    {
      var vs := reports[i].violations;
      forall j | 0 <= j < |vs|
        ensures Reparses(vs[j].packages, fromString)
      {
        assert vs[j] in vs;
      }
    }
    ReportsRoundTrip(written, render, fromString);
    ReadBackPresent(reports);
  }
}
