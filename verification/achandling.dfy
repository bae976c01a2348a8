/**
 * The AcHandling check: the access control handling mode a package declares must be one its configuration
 * allows, either through an explicit list of modes or through one of the nested level sets; each package
 * whose mode is not allowed gets one MAJOR violation before it is extracted.
 */
module AcHandling {
  import opened Wrappers
  import opened JavaResult
  import JavaString
  import opened Violations
  import JavaxJson

  /** How a package's access control entries are installed. */
  datatype Mode = Overwrite | Merge | MergePreserve | Ignore | Clear

  /** The name of a mode, as `valueOf` accepts it and `toString` writes it. */
  function ModeName(m: Mode): string {
    match m
    case Overwrite => "OVERWRITE"
    case Merge => "MERGE"
    case MergePreserve => "MERGE_PRESERVE"
    case Ignore => "IGNORE"
    case Clear => "CLEAR"
  }

  /** `AccessControlHandling.valueOf`: the mode with exactly this name. */
  function ModeOf(name: string): (r: Option<Mode>)
    ensures r.Some? ==> ModeName(r.value) == name
  {
    if name == "OVERWRITE" then Some(Overwrite)
    else if name == "MERGE" then Some(Merge)
    else if name == "MERGE_PRESERVE" then Some(MergePreserve)
    else if name == "IGNORE" then Some(Ignore)
    else if name == "CLEAR" then Some(Clear)
    else None
  }

  /** Every mode is found by its own name, and only by it. */
  lemma ModeOfName(m: Mode, name: string)
    ensures ModeOf(ModeName(m)) == Some(m)
    ensures ModeOf(name) == Some(m) <==> name == ModeName(m)
  {
  }

  /** The level sets: an explicit list, or one of four ever narrower sets of allowed modes. */
  datatype LevelSet = Explicit | NoClear | NoUnsafe | OnlyAdd | OnlyIgnore

  /** The level set used when the configuration names none. */
  const DefaultLevelSet := NoUnsafe

  /** The name of a level set, as `valueOf` accepts it. */
  function LevelSetName(l: LevelSet): string {
    match l
    case Explicit => "EXPLICIT"
    case NoClear => "NO_CLEAR"
    case NoUnsafe => "NO_UNSAFE"
    case OnlyAdd => "ONLY_ADD"
    case OnlyIgnore => "ONLY_IGNORE"
  }

  /** The name of a level set in lower case, as the violation message writes it. */
  function LevelSetLabel(l: LevelSet): string {
    match l
    case Explicit => "explicit"
    case NoClear => "no_clear"
    case NoUnsafe => "no_unsafe"
    case OnlyAdd => "only_add"
    case OnlyIgnore => "only_ignore"
  }

  /** `ACHandlingLevelSet.valueOf`: the level set with exactly this name. */
  function LevelSetOf(name: string): (r: Option<LevelSet>)
    ensures r.Some? ==> LevelSetName(r.value) == name
  {
    if name == "EXPLICIT" then Some(Explicit)
    else if name == "NO_CLEAR" then Some(NoClear)
    else if name == "NO_UNSAFE" then Some(NoUnsafe)
    else if name == "ONLY_ADD" then Some(OnlyAdd)
    else if name == "ONLY_IGNORE" then Some(OnlyIgnore)
    else None
  }

  /** Every level set is found by its own name. */
  lemma LevelSetOfName(l: LevelSet)
    ensures LevelSetOf(LevelSetName(l)) == Some(l)
  {
  }

  /** `getAllowedModes`: the modes a level set allows, in their declared order; the explicit set lists none. */
  function AllowedModes(l: LevelSet): (r: seq<Mode>)
    ensures Clear !in r
    ensures Ignore in r <==> l != Explicit
  {
    match l
    case Explicit => []
    case NoClear => [Overwrite, Merge, MergePreserve, Ignore]
    case NoUnsafe => [Merge, MergePreserve, Ignore]
    case OnlyAdd => [MergePreserve, Ignore]
    case OnlyIgnore => [Ignore]
  }

  /**
   * The level sets are nested: what ONLY_IGNORE allows ONLY_ADD allows, what ONLY_ADD allows NO_UNSAFE
   * allows, and what NO_UNSAFE allows NO_CLEAR allows; each step forbids a mode the wider one allows, and
   * NO_CLEAR forbids CLEAR alone.
   */
  lemma LevelSetsNested(m: Mode)
    ensures m in AllowedModes(OnlyIgnore) ==> m in AllowedModes(OnlyAdd)
    ensures m in AllowedModes(OnlyAdd) ==> m in AllowedModes(NoUnsafe)
    ensures m in AllowedModes(NoUnsafe) ==> m in AllowedModes(NoClear)
    ensures m in AllowedModes(NoClear) <==> m != Clear
    ensures MergePreserve !in AllowedModes(OnlyIgnore) && MergePreserve in AllowedModes(OnlyAdd)
    ensures Merge !in AllowedModes(OnlyAdd) && Merge in AllowedModes(NoUnsafe)
    ensures Overwrite !in AllowedModes(NoUnsafe) && Overwrite in AllowedModes(NoClear)
  {
  }

  /** The configuration `newInstance` reads, or the exception it throws. */
  datatype Config = Config(levelSet: LevelSet, allowedModes: seq<Mode>)

  /** The mode a configured name gives once upper-cased, as `newInstance` reads it. */
  function ModeNamed(name: string): Option<Mode> {
    ModeOf(JavaString.ToUpper(name))
  }

  /** The message of the `IllegalArgumentException` that `valueOf` throws for a name that is no constant. */
  const NoEnumConstant := "No enum constant "

  /** The modes named by the strings of an array, in any case, or the first name that is no mode. */
  function ModesOf(names: seq<string>): (r: Result<seq<Mode>>)
    ensures r.Failure? ==> r.error.className == "IllegalArgumentException"
  {
    if |names| == 0 then Success([])
    else AddMode(ModesOf(names[..|names| - 1]), names[|names| - 1])
  }

  /** One more name read after the earlier ones: a failure stays, a name that is no mode fails. */
  function AddMode(prior: Result<seq<Mode>>, name: string): (r: Result<seq<Mode>>)
    ensures r.Failure? ==> prior.Failure? || r.error.className == "IllegalArgumentException"
  {
    var mode := ModeNamed(name);
    if prior.Failure? then prior
    else if mode.None? then Failure(Exception("IllegalArgumentException", NoEnumConstant + JavaString.ToUpper(name)))
    else Success(prior.value + [mode.value])
  }

  /** `modes` are the modes `names` name, position by position. */
  ghost predicate NamesModes(names: seq<string>, modes: seq<Mode>) {
    |modes| == |names| && forall i :: 0 <= i < |names| ==> Some(modes[i]) == ModeNamed(names[i])
  }

  /** Every string names a mode. */
  ghost predicate AllModes(names: seq<string>) {
    forall i :: 0 <= i < |names| ==> ModeNamed(names[i]).Some?
  }

  /**
   * The allowed modes are read exactly when every string names a mode, giving those modes in order; otherwise
   * some string names none.
   */
  lemma {:induction false} ModesOfProperties(names: seq<string>)
    ensures ModesOf(names).Success? <==> AllModes(names)
    ensures ModesOf(names).Success? ==> NamesModes(names, ModesOf(names).value)
    ensures ModesOf(names).Failure? ==> exists i :: 0 <= i < |names| && ModeNamed(names[i]).None?
  {
    if |names| > 0 {
      var init, last := names[..|names| - 1], names[|names| - 1];
      ModesOfProperties(init);
      assert names == init + [last];
      ModesOfStep(init, last, ModesOf(init));
    }
  }

  lemma ModesOfStep(init: seq<string>, last: string, prior: Result<seq<Mode>>)
    requires prior.Success? <==> AllModes(init)
    requires prior.Success? ==> NamesModes(init, prior.value)
    ensures AddMode(prior, last).Success? <==> AllModes(init + [last])
    ensures AddMode(prior, last).Success? ==> NamesModes(init + [last], AddMode(prior, last).value)
  {
    var names := init + [last];
    assert forall i :: 0 <= i < |init| ==> names[i] == init[i];
    assert names[|init|] == last;
  }

  /** The strings of the `allowedModes` array. */
  function ConfiguredNames(config: map<string, JavaxJson.Json>): seq<string> {
    JavaxJson.StringsOf(JavaxJson.ArrayOrEmpty(config, "allowedModes"))
  }

  /**
   * `newInstance`: a non-null `allowedModes` makes the check explicit with the modes its strings name, in
   * any case; otherwise a non-null `levelSet` string names the level set, in any case; otherwise the default
   * level set applies. A name that is no mode or level set is an `IllegalArgumentException`, and a
   * `levelSet` that is not a string a `ClassCastException`.
   */
  function NewInstance(config: map<string, JavaxJson.Json>): (r: Result<Config>)
    ensures JavaxJson.HasNonNull(config, "allowedModes") ==>
      var names := ConfiguredNames(config);
      (r.Success? ==> forall i :: 0 <= i < |names| ==> ModeNamed(names[i]).Some?) &&
      (r.Failure? ==> exists i :: 0 <= i < |names| && ModeNamed(names[i]).None?) &&
      (r.Success? ==> r.value.levelSet == Explicit && |r.value.allowedModes| == |names| &&
                      forall i :: 0 <= i < |names| ==> Some(r.value.allowedModes[i]) == ModeNamed(names[i]))
    ensures !JavaxJson.HasNonNull(config, "allowedModes") && JavaxJson.HasNonNull(config, "levelSet") ==>
      (r.Success? <==> config["levelSet"].JString? && LevelSetOf(JavaString.ToUpper(config["levelSet"].s)).Some?) &&
      (r.Success? ==> r.value == Config(LevelSetOf(JavaString.ToUpper(config["levelSet"].s)).value, []))
    ensures !JavaxJson.HasNonNull(config, "allowedModes") && !JavaxJson.HasNonNull(config, "levelSet") ==>
      r == Success(Config(DefaultLevelSet, []))
  {
    if JavaxJson.HasNonNull(config, "allowedModes") then
      var names := ConfiguredNames(config);
      ModesOfProperties(names);
      var modes := ModesOf(names);
      if modes.Failure? then Failure(modes.error) else Success(Config(Explicit, modes.value))
    else if JavaxJson.HasNonNull(config, "levelSet") then
      if !config["levelSet"].JString? then Failure(Exception("ClassCastException", "levelSet is not a string"))
      else
        var name := JavaString.ToUpper(config["levelSet"].s);
        var levelSet := LevelSetOf(name);
        if levelSet.None? then Failure(Exception("IllegalArgumentException", NoEnumConstant + name))
        else Success(Config(levelSet.value, []))
    else Success(Config(DefaultLevelSet, []))
  }

  /** Whether a check allows a mode: the explicit level set consults its list, the others their own modes. */
  predicate Allowed(levelSet: LevelSet, allowedModes: seq<Mode>, mode: Mode) {
    if levelSet == Explicit then mode in allowedModes else mode in AllowedModes(levelSet)
  }

  /** IGNORE, the mode of a package that declares none, is allowed by every level set but the explicit one. */
  lemma IgnoreAllowed(levelSet: LevelSet, allowedModes: seq<Mode>)
    requires levelSet != Explicit
    ensures Allowed(levelSet, allowedModes, Ignore)
  {
  }

  function ModeNames(modes: seq<Mode>): (r: seq<string>)
    ensures |r| == |modes|
  {
    seq(|modes|, i requires 0 <= i < |modes| => ModeName(modes[i]))
  }

  /** The description of the violation for a forbidden mode. */
  function ForbiddenText(levelSet: LevelSet, allowedModes: seq<Mode>, mode: Mode): string {
    if levelSet == Explicit then
      "acHandling mode " + ModeName(mode) + " is forbidden. acHandling values in allowedModes are " +
      JavaString.ListText(ModeNames(allowedModes))
    else
      "acHandling mode " + ModeName(mode) + " is forbidden. allowed acHandling values in levelSet:" +
      LevelSetLabel(levelSet) + " are " + JavaString.ListText(ModeNames(AllowedModes(levelSet)))
  }

  /** The check; a null level set is `None`, and `reported` is the list of violations the check collects. */
  class Check {
    const levelSet: Option<LevelSet>
    const allowedModes: seq<Mode>
    var reported: seq<Violation>

    constructor (levelSet: Option<LevelSet>, allowedModes: seq<Mode>)
      ensures this.levelSet == levelSet && this.allowedModes == allowedModes && reported == []
    {
      this.levelSet := levelSet;
      this.allowedModes := allowedModes;
      reported := [];
    }

    /** What `beforeExtract` reports for a package declaring `acHandling`, none meaning IGNORE. */
    function Verdict(id: PackageId, acHandling: Option<Mode>): (r: seq<Violation>)
      ensures |r| <= 1
      ensures r != [] <==> levelSet.Some? && !Allowed(levelSet.value, allowedModes, acHandling.GetOrElse(Ignore))
      ensures forall v :: v in r ==> v.severity == Major && v.packages == [id]
    {
      if levelSet.None? then []
      else
        var mode := acHandling.GetOrElse(Ignore);
        if Allowed(levelSet.value, allowedModes, mode) then []
        else [Violation(Major, ForbiddenText(levelSet.value, allowedModes, mode), [id])]
    }

    /**
     * `beforeExtract`: with no level set nothing happens; otherwise the package's mode, IGNORE when it
     * declares none, must be allowed, or one MAJOR violation names the package.
     */
    method BeforeExtract(id: PackageId, acHandling: Option<Mode>)
      modifies this
      ensures reported == old(reported) + Verdict(id, acHandling)
    {
      if levelSet.None? {
        return;
      }
      var packageMode := if acHandling.Some? then acHandling.value else Ignore;
      if levelSet.value == Explicit {
        if packageMode !in allowedModes {
          reported := reported + [Violation(Major, ForbiddenText(Explicit, allowedModes, packageMode), [id])];
        }
      } else {
        if packageMode !in AllowedModes(levelSet.value) {
          reported := reported + [Violation(Major, ForbiddenText(levelSet.value, allowedModes, packageMode), [id])];
        }
      }
    }
  }

  /**
   * Narrowing the level set only adds violations: a package reported under a wider level set is reported
   * under every narrower one.
   */
  lemma NarrowerReportsMore(wide: LevelSet, narrow: LevelSet, mode: Mode)
    requires wide != Explicit && narrow != Explicit
    requires forall m :: m in AllowedModes(narrow) ==> m in AllowedModes(wide)
    ensures !Allowed(wide, [], mode) ==> !Allowed(narrow, [], mode)
  {
  }
}
