/**
 * An opear: an extracted plan archive whose manifest lists the plans it exports and the class path its checks
 * load from. Every path the manifest lists is normalised and must stay inside the archive; a directory without
 * a manifest is a simple opear whose class path is the directory itself.
 */
module OpearFiles {
  import opened Wrappers
  import opened JavaResult
  import JavaString
  import Seqs

  /** The main manifest attributes an opear reads. */
  datatype Header = BundleSymbolicName | BundleVersion | ClassPath | OakpalPlan

  datatype Manifest = Manifest(mainAttributes: map<Header, string>)

  /** The OSGi header parser: the keys of the clauses of a header's value, in order. */
  type HeaderParser = string -> seq<string>

  /**
   * `new URI(value).normalize().getPath()`: the normalised path of a value, or none when the value is not a URI
   * (the `URISyntaxException`).
   */
  type UriPath = string -> Option<string>

  /** `OpearMetadata`: the exported plans, the plan class path, and whether the default plan is the basic one. */
  datatype OpearMetadata = OpearMetadata(plans: seq<string>, planClassPath: seq<string>, defaultBasic: bool)

  /** A plan location: a file of the opear, or one of the two plans shipped with oakpal. */
  datatype PlanUrl = PlanFile(dir: string, name: string) | BasicPlan | EmptyPlan

  /** The loader the plan's checks are loaded with. */
  datatype ClassLoader = Parent | UrlClassLoader(entries: seq<PlanUrl>)

  /** `getManifestHeaderValues`: the parsed values of a header, none when it is absent. */
  function HeaderValues(manifest: Manifest, parse: HeaderParser, header: Header): (r: seq<string>)
    ensures header !in manifest.mainAttributes ==> r == []
  {
    if header in manifest.mainAttributes then parse(manifest.mainAttributes[header]) else []
  }

  /** `replaceFirst("^/", "")`: one leading slash removed. */
  function StripLeadingSlash(path: string): (r: string)
    ensures path == r || path == "/" + r
    ensures |path| > 0 && path[0] == '/' ==> path == "/" + r
  {
    if |path| > 0 && path[0] == '/' then path[1..] else path
  }

  /** A path that selects the parent of the opear directory. */
  predicate IsParentSelector(path: string) {
    path == ".." || JavaString.StartsWith(path, "../")
  }

  /**
   * One header value: a URI whose normalised path, without its leading slash, does not climb out of the opear;
   * that path is the value kept.
   */
  function ValidateUri(uriPath: UriPath, value: string): (r: Result<string>)
    ensures r.Success? <==> uriPath(value).Some? && !IsParentSelector(StripLeadingSlash(uriPath(value).value))
    ensures r.Success? ==>
      (!IsParentSelector(r.value) && (uriPath(value).value == r.value || uriPath(value).value == "/" + r.value))
    ensures uriPath(value).None? ==> r.Failure? && r.error.className == "URISyntaxException"
  {
    match uriPath(value)
    case None => Failure(Exception("URISyntaxException", value))
    case Some(path) =>
      var normal := StripLeadingSlash(path);
      if IsParentSelector(normal) then FailureOf("Illegal parent path selector in " + normal)
      else Success(normal)
  }

  /** `validateUriHeaderValues`: the first value that fails decides, else every value is kept in order. */
  function ValidateUriHeaderValues(manifest: Manifest, parse: HeaderParser, uriPath: UriPath, header: Header)
    : Result<seq<string>>
  {
    ValidateAll(uriPath, HeaderValues(manifest, parse, header))
  }

  /** Every value validated, collected until the first that fails. */
  function ValidateAll(uriPath: UriPath, values: seq<string>): Result<seq<string>> {
    CollectOrFailOnFirst(Validations(uriPath, values))
  }

  /** Each value validated on its own. */
  function Validations(uriPath: UriPath, values: seq<string>): (r: seq<Result<string>>)
    ensures |r| == |values| && forall i :: 0 <= i < |values| ==> r[i] == ValidateUri(uriPath, values[i])
  {
    seq(|values|, i requires 0 <= i < |values| => ValidateUri(uriPath, values[i]))
  }

  /**
   * The header validates exactly when every value does; then its values are the validated ones, in order, and
   * none climbs out of the opear; otherwise the error is that of the first value that fails.
   */
  lemma ValidateUriHeaderValuesProperties(manifest: Manifest, parse: HeaderParser, uriPath: UriPath, header: Header)
    ensures var values := HeaderValues(manifest, parse, header);
      ValidateUriHeaderValues(manifest, parse, uriPath, header).Success? <==>
        forall i :: 0 <= i < |values| ==> ValidateUri(uriPath, values[i]).Success?
    ensures var values := HeaderValues(manifest, parse, header);
      var r := ValidateUriHeaderValues(manifest, parse, uriPath, header);
      r.Success? ==>
        (|r.value| == |values| &&
         forall i :: 0 <= i < |values| ==>
           (r.value[i] == ValidateUri(uriPath, values[i]).value && !IsParentSelector(r.value[i])))
    ensures var values := HeaderValues(manifest, parse, header);
      var r := ValidateUriHeaderValues(manifest, parse, uriPath, header);
      r.Failure? ==>
        exists k :: (0 <= k < |values| && ValidateUri(uriPath, values[k]) == Failure(r.error) &&
                     forall j :: 0 <= j < k ==> ValidateUri(uriPath, values[j]).Success?)
    ensures header !in manifest.mainAttributes ==>
      ValidateUriHeaderValues(manifest, parse, uriPath, header) == Success([])
  {
    ValidateAllProperties(uriPath, HeaderValues(manifest, parse, header));
  }

  lemma ValidateAllProperties(uriPath: UriPath, values: seq<string>)
    ensures ValidateAll(uriPath, values).Success? <==>
      forall i :: 0 <= i < |values| ==> ValidateUri(uriPath, values[i]).Success?
    ensures var r := ValidateAll(uriPath, values);
      r.Success? ==>
        (|r.value| == |values| &&
         forall i :: 0 <= i < |values| ==>
           (r.value[i] == ValidateUri(uriPath, values[i]).value && !IsParentSelector(r.value[i])))
    ensures var r := ValidateAll(uriPath, values);
      r.Failure? ==>
        exists k :: (0 <= k < |values| && ValidateUri(uriPath, values[k]) == Failure(r.error) &&
                     forall j :: 0 <= j < k ==> ValidateUri(uriPath, values[j]).Success?)
    ensures values == [] ==> ValidateAll(uriPath, values) == Success([])
  {
    var results := Validations(uriPath, values);
    var r := CollectOrFailOnFirst(results);
    CollectProperties(results);
    if r.Failure? {
      var k :| 0 <= k < |results| && results[k] == Failure(r.error) && forall j :: 0 <= j < k ==> results[j].Success?;
    }
  }

  /** `validateUriHeaderValuesWithDefaultForMissing` */
  function ValidateUriHeaderValuesWithDefault(manifest: Manifest, parse: HeaderParser, uriPath: UriPath,
                                              header: Header, defaultValue: seq<string>): (r: Result<seq<string>>)
    ensures header !in manifest.mainAttributes ==> r == Success(defaultValue)
    ensures header in manifest.mainAttributes ==> r == ValidateUriHeaderValues(manifest, parse, uriPath, header)
  {
    if header !in manifest.mainAttributes then Success(defaultValue)
    else ValidateUriHeaderValues(manifest, parse, uriPath, header)
  }

  /**
   * `validateOpearManifest`: a manifest naming its bundle, whose class path (by default the opear directory)
   * and plans validate. The bundle id built from the name and version is not used.
   */
  function ValidateOpearManifest(manifest: Option<Manifest>, parse: HeaderParser, uriPath: UriPath)
    : Result<OpearMetadata>
  {
    match manifest
    case None => FailureOf("specified opear file does not contain manifest.")
    case Some(man) =>
      if BundleSymbolicName !in man.mainAttributes then
        FailureOf("opear manifest does not specify Bundle-SymbolicName")
      else
        match ValidateUriHeaderValuesWithDefault(man, parse, uriPath, ClassPath, ["."])
        case Failure(e) => Failure(e)
        case Success(planClassPath) =>
          match ValidateUriHeaderValues(man, parse, uriPath, OakpalPlan)
          case Failure(e) => Failure(e)
          case Success(plans) => Success(OpearMetadata(plans, planClassPath, false))
  }

  /**
   * A manifest is accepted exactly when it is present, names its bundle and both its headers validate; the
   * metadata then holds the validated values, the class path defaulting to the opear directory and the plans
   * to none, and the default plan is the empty one.
   */
  lemma ValidateOpearManifestProperties(manifest: Option<Manifest>, parse: HeaderParser, uriPath: UriPath)
    ensures var r := ValidateOpearManifest(manifest, parse, uriPath);
      r.Success? <==>
        (manifest.Some? && BundleSymbolicName in manifest.value.mainAttributes &&
         ValidateUriHeaderValuesWithDefault(manifest.value, parse, uriPath, ClassPath, ["."]).Success? &&
         ValidateUriHeaderValues(manifest.value, parse, uriPath, OakpalPlan).Success?)
    ensures var r := ValidateOpearManifest(manifest, parse, uriPath);
      r.Success? ==>
        r.value.planClassPath == ValidateUriHeaderValuesWithDefault(manifest.value, parse, uriPath, ClassPath, ["."]).value &&
        r.value.plans == ValidateUriHeaderValues(manifest.value, parse, uriPath, OakpalPlan).value &&
        !r.value.defaultBasic &&
        (ClassPath !in manifest.value.mainAttributes ==> r.value.planClassPath == ["."]) &&
        (OakpalPlan !in manifest.value.mainAttributes ==> r.value.plans == [])
    ensures manifest.Some? && BundleSymbolicName !in manifest.value.mainAttributes ==>
      ValidateOpearManifest(manifest, parse, uriPath) ==
        FailureOf("opear manifest does not specify Bundle-SymbolicName")
  {
    if manifest.Some? && OakpalPlan !in manifest.value.mainAttributes {
      ValidateUriHeaderValuesProperties(manifest.value, parse, uriPath, OakpalPlan);
    }
  }

  /** Every plan and class path entry of an accepted manifest stays inside the opear. */
  lemma AcceptedManifestStaysInside(manifest: Option<Manifest>, parse: HeaderParser, uriPath: UriPath)
    requires ValidateOpearManifest(manifest, parse, uriPath).Success?
    ensures var meta := ValidateOpearManifest(manifest, parse, uriPath).value;
      (forall p :: p in meta.plans ==> !IsParentSelector(p)) &&
      (forall p :: p in meta.planClassPath ==> !IsParentSelector(p))
  {
    var man := manifest.value;
    ValidateUriHeaderValuesProperties(man, parse, uriPath, OakpalPlan);
    if ClassPath in man.mainAttributes {
      ValidateUriHeaderValuesProperties(man, parse, uriPath, ClassPath);
    }
  }

  /** `metaForSimpleDir`: the directory's plan if it has one, the directory as class path, the basic plan. */
  function MetaForSimpleDir(planExists: bool, simpleDirPlan: string): (r: OpearMetadata)
    ensures r.planClassPath == ["."] && r.defaultBasic
    ensures r.plans == [] <==> !planExists
    ensures planExists ==> r.plans == [simpleDirPlan]
  {
    OpearMetadata(if planExists then [simpleDirPlan] else [], ["."], true)
  }

  /** An opear extracted to `cacheDir`. */
  datatype OpearFile = OpearFile(cacheDir: string, metadata: OpearMetadata) {
    /** `getDefaultPlan`: the first exported plan, else the basic or the empty plan. */
    function DefaultPlan(): PlanUrl {
      if |metadata.plans| > 0 then PlanFile(cacheDir, metadata.plans[0])
      else if metadata.defaultBasic then BasicPlan
      else EmptyPlan
    }

    /** `getSpecificPlan` */
    function SpecificPlan(planName: string): (r: Result<PlanUrl>)
      ensures r.Failure? ==> r.error.message == "Opear does not export a plan named " + planName
    {
      if planName in metadata.plans then Success(PlanFile(cacheDir, planName))
      else FailureOf("Opear does not export a plan named " + planName)
    }

    /**
     * `getPlanClassLoader`: a loader over the class path entries that are directories or jars, or the parent
     * loader when there are none.
     */
    function PlanClassLoader(isDirectory: string -> bool): ClassLoader {
      var kept := Seqs.Filter(metadata.planClassPath,
                              name => isDirectory(name) || JavaString.EndsWith(name, ".jar"));
      if |kept| > 0 then UrlClassLoader(seq(|kept|, i requires 0 <= i < |kept| => PlanFile(cacheDir, kept[i])))
      else Parent
    }
  }

  /**
   * A specific plan is found exactly when it is exported, as the opear's file of that name; the default plan
   * is the first exported one, and without exports it is the basic plan for a simple directory and the empty
   * plan otherwise.
   */
  lemma PlanLookup(opear: OpearFile, planName: string)
    ensures opear.SpecificPlan(planName).Success? <==> planName in opear.metadata.plans
    ensures opear.SpecificPlan(planName).Success? ==>
      opear.SpecificPlan(planName).value == PlanFile(opear.cacheDir, planName)
    ensures |opear.metadata.plans| > 0 ==>
      opear.DefaultPlan() == opear.SpecificPlan(opear.metadata.plans[0]).value
    ensures opear.metadata.plans == [] ==>
      opear.DefaultPlan() == (if opear.metadata.defaultBasic then BasicPlan else EmptyPlan)
  {
  }

  /**
   * The plan class loader is the parent exactly when no class path entry is a directory or a jar; otherwise
   * every entry it loads from is such an entry of the opear.
   */
  lemma PlanClassLoaderEntries(opear: OpearFile, isDirectory: string -> bool)
    ensures opear.PlanClassLoader(isDirectory).Parent? <==>
      forall p :: p in opear.metadata.planClassPath ==> !isDirectory(p) && !JavaString.EndsWith(p, ".jar")
    ensures opear.PlanClassLoader(isDirectory).UrlClassLoader? ==>
      forall u :: u in opear.PlanClassLoader(isDirectory).entries ==>
        u.PlanFile? && u.dir == opear.cacheDir && u.name in opear.metadata.planClassPath &&
        (isDirectory(u.name) || JavaString.EndsWith(u.name, ".jar"))
  {
    var keep := (name: string) => isDirectory(name) || JavaString.EndsWith(name, ".jar");
    var kept := Seqs.Filter(opear.metadata.planClassPath, keep);
    if |kept| > 0 {
      assert kept[0] in opear.metadata.planClassPath && keep(kept[0]);
    }
  }

  /**
   * `fromDirectory`: a directory with a manifest file is an opear when the manifest reads and validates; one
   * without is a simple opear.
   */
  function FromDirectory(directory: string, manifestRead: Option<Result<Manifest>>, planExists: bool,
                         simpleDirPlan: string, parse: HeaderParser, uriPath: UriPath): Result<OpearFile>
  {
    match manifestRead
    case None => Success(OpearFile(directory, MetaForSimpleDir(planExists, simpleDirPlan)))
    case Some(Failure(e)) => Failure(e)
    case Some(Success(man)) =>
      match ValidateOpearManifest(Some(man), parse, uriPath)
      case Failure(e) => Failure(e)
      case Success(meta) => Success(OpearFile(directory, meta))
  }

  /**
   * A directory without a manifest file is always an opear loading from the directory itself, whose default
   * plan is its own plan file when it has one and the basic plan otherwise; with a manifest file it is one
   * exactly when the manifest reads and validates, and none of its paths climbs out of it.
   */
  lemma FromDirectoryProperties(directory: string, manifestRead: Option<Result<Manifest>>, planExists: bool,
                                simpleDirPlan: string, parse: HeaderParser, uriPath: UriPath)
    ensures var r := FromDirectory(directory, manifestRead, planExists, simpleDirPlan, parse, uriPath);
      manifestRead.None? ==>
        (r.Success? && r.value.cacheDir == directory && r.value.metadata.planClassPath == ["."] &&
         r.value.DefaultPlan() == (if planExists then PlanFile(directory, simpleDirPlan) else BasicPlan))
    ensures var r := FromDirectory(directory, manifestRead, planExists, simpleDirPlan, parse, uriPath);
      manifestRead.Some? ==>
        (r.Success? <==> manifestRead.value.Success? &&
                         ValidateOpearManifest(Some(manifestRead.value.value), parse, uriPath).Success?)
    ensures var r := FromDirectory(directory, manifestRead, planExists, simpleDirPlan, parse, uriPath);
      manifestRead.Some? && r.Success? ==>
        (r.value.cacheDir == directory && !r.value.metadata.defaultBasic &&
         forall p :: p in r.value.metadata.plans ==> !IsParentSelector(p))
  {
    if manifestRead.Some? && manifestRead.value.Success? {
      var man := manifestRead.value.value;
      if ValidateOpearManifest(Some(man), parse, uriPath).Success? {
        AcceptedManifestStaysInside(Some(man), parse, uriPath);
      }
    }
  }
}
