/**
 * The ExpectAces check: criteria for access control entries, written as `type=allow;path=/x;privileges=a,b`
 * followed by restriction parameters, are parsed, printed back, and matched against the access control lists
 * found at their paths; after each package the rules select, each expected criterion that no list satisfies
 * and each unexpected criterion that one does is charged to the package.
 */
module ExpectAces {
  import opened Wrappers
  import opened JavaResult
  import JavaString
  import opened Violations
  import opened ViolatorMaps
  import Rules
  import Seqs

  const ParamType := "type"
  const ParamPath := "path"
  const ParamPrivileges := "privileges"

  /** The messages of the exceptions `parse` throws, between the offending key or value and the text. */
  const TypeRequired := " is a required ace parameter: "
  const InvalidType := " is not a valid value for parameter "
  const PathRequired := " parameter is required, but can be left empty to match rep:repoPolicy aces: "
  const PrivilegesRequired := "privileges must be specified with at least one element: "
  const PrincipalRequired := "principal must be non-empty: "
  /** The start of the message of `parseAceCriteria`'s exception, before the configuration key. */
  const InvalidCriteriaIn := "invalid criteria in "

  /** A restriction an entry must carry; without a value, only the restriction's name must be present. */
  datatype RestrictionCriteria = RestrictionCriteria(name: string, value: Option<string>)

  /** An ACE criterion for one principal; `spec` is the text it was parsed from, if any. */
  datatype AceCriteria = AceCriteria(principal: string, isAllow: bool, path: string, privileges: seq<string>,
                                     restrictions: seq<RestrictionCriteria>, spec: Option<string>)

  /** A parameter as parsing sees it: its key and its value, absent when empty. */
  type Param = (string, Option<string>)

  /** `Type.forName`: `true` for ALLOW, `false` for DENY, ignoring case; nothing for any other name. */
  function TypeForName(name: string): Option<bool> {
    if JavaString.EqualsIgnoreCase("ALLOW", name) then Some(true)
    else if JavaString.EqualsIgnoreCase("DENY", name) then Some(false)
    else None
  }

  /** A `key=value` parameter: the key is the text before the first '=', the value the trimmed rest. */
  function ParamOf(param: string): (r: Param)
    ensures '=' !in r.0
    ensures '=' !in param ==> r == (param, None)
    ensures r.1.Some? ==> r.1.value != "" && exists rest :: param == r.0 + "=" + rest && r.1.value == JavaString.Trim(rest)
  {
    var parts := JavaString.SplitFirst(param, '=');
    var trimmed := if |parts| > 1 then JavaString.Trim(parts[1]) else "";
    (parts[0], if trimmed == "" then None else Some(trimmed))
  }

  /** The parameters of a criteria text: the trimmed text split at ';'. */
  function ParamsOf(spec: string): (r: seq<Param>)
  {
    var params := JavaString.Split(JavaString.Trim(spec), ';');
    seq(|params|, i requires 0 <= i < |params| => ParamOf(params[i]))
  }

  predicate HasKey(pairs: seq<Param>, key: string) {
    exists i :: 0 <= i < |pairs| && pairs[i].0 == key
  }

  /** No key is given a value twice. */
  predicate UniqueValuedKeys(pairs: seq<Param>) {
    forall i, j :: 0 <= i < j < |pairs| && pairs[i].1.Some? && pairs[j].1.Some? ==> pairs[i].0 != pairs[j].0
  }

  /**
   * The map of the parameters that have a value, built in order; a key given a value twice is an
   * `IllegalStateException` naming the first value.
   */
  function ValueMap(pairs: seq<Param>): (r: Result<map<string, string>>)
    ensures r.Failure? ==> r.error.className == "IllegalStateException"
  {
    if |pairs| == 0 then Success(map[]) else AddParam(ValueMap(pairs[..|pairs| - 1]), pairs[|pairs| - 1])
  }

  /** One more parameter merged into the map: skipped without a value, refused when its key is present. */
  function AddParam(prior: Result<map<string, string>>, param: Param): (r: Result<map<string, string>>)
    ensures prior.Failure? || param.1.None? ==> r == prior
    ensures prior.Success? && param.1.Some? ==>
      && (r.Failure? <==> param.0 in prior.value)
      && (r.Failure? ==> r.error == Exception("IllegalStateException", "Duplicate key " + prior.value[param.0]))
      && (r.Success? ==> param.0 in r.value && r.value[param.0] == param.1.value &&
                         r.value.Keys == prior.value.Keys + {param.0} &&
                         forall k :: k in prior.value ==> r.value[k] == prior.value[k])
  {
    var (key, value) := param;
    if prior.Failure? || value.None? then prior
    else if key in prior.value then
      Failure(Exception("IllegalStateException", "Duplicate key " + prior.value[key]))
    else Success(prior.value[key := value.value])
  }

  /** `m` holds exactly the keys the parameters give a value, each with its value. */
  ghost predicate HoldsValues(pairs: seq<Param>, m: map<string, string>) {
    (forall k :: k in m <==> exists i :: 0 <= i < |pairs| && pairs[i].0 == k && pairs[i].1.Some?) &&
    (forall i :: 0 <= i < |pairs| && pairs[i].1.Some? ==> pairs[i].0 in m && m[pairs[i].0] == pairs[i].1.value)
  }

  /**
   * The value map fails exactly when a key is given a value twice; otherwise it holds exactly the keys with
   * values, each with its value.
   */
  lemma {:induction false} ValueMapProperties(pairs: seq<Param>)
    ensures ValueMap(pairs).Success? <==> UniqueValuedKeys(pairs)
    ensures ValueMap(pairs).Success? ==> HoldsValues(pairs, ValueMap(pairs).value)
  {
    if |pairs| > 0 {
      var init := pairs[..|pairs| - 1];
      ValueMapProperties(init);
      ValueMapStep(pairs, ValueMap(init));
    }
  }

  /**
   * The exception of a key given a value twice names the value the key was given first: there are two
   * parameters with that key, both with values, and the message quotes the earlier one's value.
   */
  lemma {:induction false} ValueMapDuplicate(pairs: seq<Param>)
    requires ValueMap(pairs).Failure?
    ensures exists i, j :: 0 <= i < j < |pairs| && pairs[i].0 == pairs[j].0 && pairs[i].1.Some? && pairs[j].1.Some? &&
                           ValueMap(pairs).error == Exception("IllegalStateException", "Duplicate key " + pairs[i].1.value)
  {
    var init := pairs[..|pairs| - 1];
    var last := pairs[|pairs| - 1];
    if ValueMap(init).Failure? {
      ValueMapDuplicate(init);
      var i, j :| 0 <= i < j < |init| && init[i].0 == init[j].0 && init[i].1.Some? && init[j].1.Some? &&
                  ValueMap(init).error == Exception("IllegalStateException", "Duplicate key " + init[i].1.value);
      assert pairs[i] == init[i] && pairs[j] == init[j];
    } else {
      ValueMapProperties(init);
      var i :| 0 <= i < |init| && init[i].0 == last.0 && init[i].1.Some?;
      assert pairs[i] == init[i];
    }
  }

  /** The value map of the parameters from that of all but the last. */
  lemma ValueMapStep(pairs: seq<Param>, prior: Result<map<string, string>>)
    requires |pairs| > 0
    requires prior.Success? <==> UniqueValuedKeys(pairs[..|pairs| - 1])
    requires prior.Success? ==> HoldsValues(pairs[..|pairs| - 1], prior.value)
    ensures AddParam(prior, pairs[|pairs| - 1]).Success? <==> UniqueValuedKeys(pairs)
    ensures AddParam(prior, pairs[|pairs| - 1]).Success? ==> HoldsValues(pairs, AddParam(prior, pairs[|pairs| - 1]).value)
  {
    var init := pairs[..|pairs| - 1];
    var last := pairs[|pairs| - 1];
    UniqueValuedKeysSnoc(pairs);
    if prior.Success? && last.1.Some? {
      if last.0 in prior.value {
        var i :| 0 <= i < |init| && init[i].0 == last.0 && init[i].1.Some?;
      } else {
        HoldsValuesSome(pairs, prior.value);
      }
    } else if prior.Success? {
      HoldsValuesNone(pairs, prior.value);
    }
  }

  /** No key is given a value twice, checked one parameter at a time. */
  lemma UniqueValuedKeysSnoc(pairs: seq<Param>)
    requires |pairs| > 0
    ensures var init := pairs[..|pairs| - 1]; var last := pairs[|pairs| - 1];
      UniqueValuedKeys(pairs) <==>
        UniqueValuedKeys(init) &&
        (last.1.Some? ==> forall i :: 0 <= i < |init| && init[i].1.Some? ==> init[i].0 != last.0)
  {
    var init := pairs[..|pairs| - 1];
    assert forall i :: 0 <= i < |init| ==> init[i] == pairs[i];
  }

  /** A last parameter without a value adds nothing to the map. */
  lemma HoldsValuesNone(pairs: seq<Param>, m: map<string, string>)
    requires |pairs| > 0 && pairs[|pairs| - 1].1.None? && HoldsValues(pairs[..|pairs| - 1], m)
    ensures HoldsValues(pairs, m)
  {
    var init := pairs[..|pairs| - 1];
    assert forall i :: 0 <= i < |init| ==> init[i] == pairs[i];
  }

  /** A last parameter with a value for a new key adds that key with that value. */
  lemma HoldsValuesSome(pairs: seq<Param>, m: map<string, string>)
    requires |pairs| > 0 && pairs[|pairs| - 1].1.Some? && pairs[|pairs| - 1].0 !in m
    requires HoldsValues(pairs[..|pairs| - 1], m)
    ensures HoldsValues(pairs, m[pairs[|pairs| - 1].0 := pairs[|pairs| - 1].1.value])
  {
    var init := pairs[..|pairs| - 1];
    var last := pairs[|pairs| - 1];
    assert forall i :: 0 <= i < |init| ==> init[i] == pairs[i];
    var r := m[last.0 := last.1.value];
    forall i | 0 <= i < |pairs| && pairs[i].1.Some?
      ensures pairs[i].0 in r && r[pairs[i].0] == pairs[i].1.value
    {
      if i < |init| {
        assert pairs[i].0 in m;
      }
    }
  }

  /** The value of `key`, or null. */
  function Lookup(values: map<string, string>, key: string): Option<string> {
    if key in values then Some(values[key]) else None
  }

  predicate NonEmpty(s: string) { s != "" }

  /** A comma-separated list: split at ',', each item trimmed, empty items dropped. */
  function ListValues(s: string): (r: seq<string>)
    ensures forall i :: 0 <= i < |r| ==> r[i] != "" && ',' !in r[i]
  {
    var parts := JavaString.Split(s, ',');
    var trimmed := seq(|parts|, i requires 0 <= i < |parts| => JavaString.Trim(parts[i]));
    assert forall i :: 0 <= i < |trimmed| ==> ',' !in trimmed[i] by {
      forall i | 0 <= i < |trimmed|
        ensures ',' !in trimmed[i]
      {
        JavaString.TrimKeepsOut(parts[i], ',');
      }
    }
    Seqs.Filter(trimmed, NonEmpty)
  }

  predicate IsReserved(key: string) {
    key == ParamType || key == ParamPath || key == ParamPrivileges
  }

  /** The keys that become restrictions: every key other than type, path and privileges, once, in order. */
  function RestrictionNames(pairs: seq<Param>): seq<string> {
    if |pairs| == 0 then []
    else
      var prior := RestrictionNames(pairs[..|pairs| - 1]);
      var key := pairs[|pairs| - 1].0;
      if key in prior || IsReserved(key) then prior else prior + [key]
  }

  /** The restriction names are every key other than type, path and privileges, each once. */
  lemma {:induction false} RestrictionNamesOnce(pairs: seq<Param>)
    ensures var r := RestrictionNames(pairs);
      (forall i, j :: 0 <= i < j < |r| ==> r[i] != r[j]) &&
      (forall k :: k in r <==> HasKey(pairs, k) && !IsReserved(k))
  {
    if |pairs| > 0 {
      RestrictionNamesOnce(pairs[..|pairs| - 1]);
      HasKeySnoc(pairs);
    }
  }

  /** A key of the parameters is a key of all but the last, or the last one's. */
  lemma HasKeySnoc(pairs: seq<Param>)
    requires |pairs| > 0
    ensures forall k :: HasKey(pairs, k) <==> HasKey(pairs[..|pairs| - 1], k) || k == pairs[|pairs| - 1].0
  {
    var init := pairs[..|pairs| - 1];
    var key := pairs[|pairs| - 1].0;
    forall k | HasKey(pairs, k) ensures HasKey(init, k) || k == key {
      var i :| 0 <= i < |pairs| && pairs[i].0 == k;
      if i < |pairs| - 1 {
        assert init[i].0 == k;
      }
    }
    forall k | HasKey(init, k) ensures HasKey(pairs, k) {
      var i :| 0 <= i < |init| && init[i].0 == k;
      assert pairs[i].0 == k;
    }
  }

  /** The trimmed `path` value, or the empty path when the key has no value. */
  function PathOf(values: map<string, string>): string {
    JavaString.Trim(Lookup(values, ParamPath).GetOrElse(""))
  }

  /** The items of the `privileges` value, none when the key has no value. */
  function PrivilegesOf(values: map<string, string>): seq<string> {
    ListValues(Lookup(values, ParamPrivileges).GetOrElse(""))
  }

  /** One restriction per key other than type, path and privileges, with the key's value or none. */
  function RestrictionsOf(pairs: seq<Param>, values: map<string, string>): (r: seq<RestrictionCriteria>)
    ensures |r| == |RestrictionNames(pairs)|
    ensures forall i :: 0 <= i < |r| ==> r[i] == RestrictionCriteria(RestrictionNames(pairs)[i], Lookup(values, RestrictionNames(pairs)[i]))
  {
    var names := RestrictionNames(pairs);
    seq(|names|, i requires 0 <= i < |names| => RestrictionCriteria(names[i], Lookup(values, names[i])))
  }

  /** What `parse` demands of a criteria text, in the order it checks. */
  predicate Acceptable(principal: string, pairs: seq<Param>) {
    principal != "" && UniqueValuedKeys(pairs) &&
    (exists i :: 0 <= i < |pairs| && pairs[i].0 == ParamType && pairs[i].1.Some? &&
                 TypeForName(pairs[i].1.value).Some?) &&
    HasKey(pairs, ParamPath) &&
    (ValueMapProperties(pairs); PrivilegesOf(ValueMap(pairs).value) != [])
  }

  /** The checks of `parse` after the parameter map is built, in their order. */
  function ParseValues(principal: string, spec: string, pairs: seq<Param>, values: map<string, string>): (r: Result<AceCriteria>)
    ensures r.Failure? ==> r.error.className == "IllegalStateException"
    ensures r.Success? ==>
      ParamType in values && Some(r.value.isAllow) == TypeForName(values[ParamType]) && HasKey(pairs, ParamPath) &&
      r.value == AceCriteria(principal, r.value.isAllow, PathOf(values), PrivilegesOf(values), RestrictionsOf(pairs, values), Some(spec)) &&
      r.value.privileges != []
  {
    if ParamType !in values then FailureOf(ParamType + TypeRequired + spec)
    else
      var aceType := TypeForName(values[ParamType]);
      if aceType.None? then
        FailureOf(values[ParamType] + InvalidType + ParamType + ": " + spec)
      else if !HasKey(pairs, ParamPath) then
        FailureOf(ParamPath + PathRequired + spec)
      else
        var privileges := PrivilegesOf(values);
        if privileges == [] then FailureOf(PrivilegesRequired + spec)
        else Success(AceCriteria(principal, aceType.value, PathOf(values), privileges, RestrictionsOf(pairs, values), Some(spec)))
  }

  /**
   * What `parse` does with a text: it returns a result, or the `IllegalStateException` of a key given a
   * value twice escapes it, because the map collector throws instead of returning a failure.
   */
  datatype Parsing = Returned(result: Result<AceCriteria>) | Escaped(error: Exception)

  /**
   * `AceCriteria.parse`: the criterion for `principal` that `spec` describes, or the first problem with it:
   * an empty principal, then a key given a value twice (which escapes), then a missing or unknown type, a
   * missing path key, or no privileges. A parsed criterion has the type the `type` value names, the trimmed
   * `path` value or the empty path when the key has no value, the listed privileges, and one restriction per
   * other key, without a value when the key has none.
   */
  function Parse(principal: string, spec: string): (r: Parsing)
    ensures principal == "" ==> r == Returned(FailureOf(PrincipalRequired + spec))
    ensures r.Escaped? <==> principal != "" && !UniqueValuedKeys(ParamsOf(spec))
    ensures r.Escaped? ==> r.error.className == "IllegalStateException"
    ensures r.Returned? && r.result.Failure? ==> r.result.error.className == "IllegalStateException"
    ensures r.Returned? && r.result.Success? ==>
      var pairs := ParamsOf(spec);
      UniqueValuedKeys(pairs) && principal != "" && ValueMap(pairs).Success? &&
      var values := ValueMap(pairs).value;
      ParamType in values && Some(r.result.value.isAllow) == TypeForName(values[ParamType]) &&
      r.result.value == AceCriteria(principal, r.result.value.isAllow, PathOf(values), PrivilegesOf(values),
                                    RestrictionsOf(pairs, values), Some(spec)) &&
      r.result.value.privileges != []
  {
    if principal == "" then Returned(FailureOf(PrincipalRequired + spec))
    else
      var pairs := ParamsOf(spec);
      var valueResult := ValueMap(pairs);
      ValueMapProperties(pairs);
      if valueResult.Failure? then Escaped(valueResult.error)
      else Returned(ParseValues(principal, spec, pairs, valueResult.value))
  }

  /** Parsing returns a criterion exactly when the text passes every check. */
  lemma ParseSucceedsIff(principal: string, spec: string)
    ensures Parse(principal, spec).Returned? && Parse(principal, spec).result.Success? <==>
            Acceptable(principal, ParamsOf(spec))
  {
    var pairs := ParamsOf(spec);
    ValueMapProperties(pairs);
    if principal != "" && UniqueValuedKeys(pairs) {
      var values := ValueMap(pairs).value;
      assert Parse(principal, spec) == Returned(ParseValues(principal, spec, pairs, values));
      ParseValuesSucceedsIff(principal, spec, pairs, values);
    }
  }

  /** The checks after the value map pass exactly when the type is known, the path key given and a privilege listed. */
  lemma ParseValuesSucceedsIff(principal: string, spec: string, pairs: seq<Param>, values: map<string, string>)
    requires HoldsValues(pairs, values)
    ensures ParseValues(principal, spec, pairs, values).Success? <==>
      (exists i :: 0 <= i < |pairs| && pairs[i].0 == ParamType && pairs[i].1.Some? &&
                   TypeForName(pairs[i].1.value).Some?) &&
      HasKey(pairs, ParamPath) && PrivilegesOf(values) != []
  {
    if ParamType in values {
      var i :| 0 <= i < |pairs| && pairs[i].0 == ParamType && pairs[i].1.Some?;
      assert values[ParamType] == pairs[i].1.value;
    }
  }

  /** The criteria texts listed under one configuration key, each parsed for `principal`. */
  function ParseAll(principal: string, specs: seq<string>): (r: seq<Parsing>)
    ensures |r| == |specs| && forall i :: 0 <= i < |specs| ==> r[i] == Parse(principal, specs[i])
  {
    seq(|specs|, i requires 0 <= i < |specs| => Parse(principal, specs[i]))
  }

  /** The position of the first parse that escaped, none when every parse returned. */
  function FirstEscaped(results: seq<Parsing>): (r: Option<nat>)
    ensures r.Some? ==> r.value < |results| && results[r.value].Escaped? &&
                        forall j :: 0 <= j < r.value ==> results[j].Returned?
    ensures r.None? ==> forall k :: 0 <= k < |results| ==> results[k].Returned?
  {
    if |results| == 0 then None
    else if results[0].Escaped? then Some(0)
    else match FirstEscaped(results[1..])
      case Some(k) => Some(k + 1)
      case None => None
  }

  /**
   * The collected parses of the texts under `key`: the exception of the first parse that escaped, whatever
   * the parses before it returned; otherwise every criterion, or an exception naming the key and the first
   * failure.
   */
  function Gathered(results: seq<Parsing>, key: string): (r: Result<seq<AceCriteria>>)
    ensures (exists k :: 0 <= k < |results| && results[k].Escaped?) ==>
      exists k :: 0 <= k < |results| && results[k].Escaped? && r == Failure(results[k].error) &&
        forall j :: 0 <= j < k ==> results[j].Returned?
    ensures (forall k :: 0 <= k < |results| ==> results[k].Returned?) ==>
      && (r.Success? <==> forall i :: 0 <= i < |results| ==> results[i].result.Success?)
      && (r.Success? ==> |r.value| == |results| && forall i :: 0 <= i < |results| ==> r.value[i] == results[i].result.value)
      && (r.Failure? ==>
            r.error.className == "Exception" &&
            exists k :: 0 <= k < |results| && results[k].result.Failure? &&
              r.error.message == InvalidCriteriaIn + key + ". " + results[k].result.error.message &&
              forall j :: 0 <= j < k ==> results[j].result.Success?)
  {
    var escaped := FirstEscaped(results);
    if escaped.Some? then Failure(results[escaped.value].error)
    else
      var returned := seq(|results|, i requires 0 <= i < |results| => results[i].result);
      assert forall i :: 0 <= i < |results| ==> returned[i] == results[i].result;
      CollectProperties(returned);
      var collected := CollectOrFailOnFirst(returned);
      if collected.Failure? then Failure(Exception("Exception", InvalidCriteriaIn + key + ". " + collected.error.message))
      else collected
  }

  /**
   * `parseAceCriteria`: every text is parsed before any result is looked at, so an exception escaping the
   * parse of any text escapes unchanged, the first such text's in order, whatever the texts before it
   * returned. Otherwise the criteria of every text, or an exception naming the key and the first failure.
   */
  function ParseAceCriteria(principal: string, specs: seq<string>, key: string): (r: Result<seq<AceCriteria>>)
    ensures var results := ParseAll(principal, specs);
      (exists k :: 0 <= k < |results| && results[k].Escaped?) ==>
        exists k :: 0 <= k < |results| && results[k].Escaped? && r == Failure(results[k].error) &&
          forall j :: 0 <= j < k ==> results[j].Returned?
    ensures var results := ParseAll(principal, specs);
      (forall k :: 0 <= k < |results| ==> results[k].Returned?) ==>
      && (r.Success? <==> forall i :: 0 <= i < |results| ==> results[i].result.Success?)
      && (r.Success? ==> |r.value| == |results| && forall i :: 0 <= i < |results| ==> r.value[i] == results[i].result.value)
      && (r.Failure? ==>
            r.error.className == "Exception" &&
            exists k :: 0 <= k < |results| && results[k].result.Failure? &&
              r.error.message == InvalidCriteriaIn + key + ". " + results[k].result.error.message &&
              forall j :: 0 <= j < k ==> results[j].result.Success?)
  {
    Gathered(ParseAll(principal, specs), key)
  }

  /**
   * The criteria `newInstance` builds from the configured principal, trimmed, and the two lists of texts:
   * an empty principal is an exception; otherwise the expected list is parsed first, and the first list that
   * fails ends the build with its exception.
   */
  function NewInstanceCriteria(principalConfig: string, expectedSpecs: seq<string>, notExpectedSpecs: seq<string>):
    (r: Result<(seq<AceCriteria>, seq<AceCriteria>)>)
    ensures JavaString.Trim(principalConfig) == "" ==> r == Failure(Exception("Exception", "principal must be non-empty"))
    ensures var principal := JavaString.Trim(principalConfig);
      var expected := ParseAceCriteria(principal, expectedSpecs, "expectedAces");
      var notExpected := ParseAceCriteria(principal, notExpectedSpecs, "notExpectedAces");
      && (principal != "" && expected.Failure? ==> r == Failure(expected.error))
      && (principal != "" && expected.Success? && notExpected.Failure? ==> r == Failure(notExpected.error))
      && (r.Success? <==> principal != "" && expected.Success? && notExpected.Success?)
      && (r.Success? ==> r.value == (expected.value, notExpected.value))
  {
    var principal := JavaString.Trim(principalConfig);
    if principal == "" then Failure(Exception("Exception", "principal must be non-empty"))
    else
      var expected := ParseAceCriteria(principal, expectedSpecs, "expectedAces");
      if expected.Failure? then Failure(expected.error)
      else
        var notExpected := ParseAceCriteria(principal, notExpectedSpecs, "notExpectedAces");
        if notExpected.Failure? then Failure(notExpected.error)
        else Success((expected.value, notExpected.value))
  }

  /** How `getSpec` writes the type: lower case. */
  function TypeName(isAllow: bool): (r: string)
    ensures TypeForName(r) == Some(isAllow)
  {
    if isAllow then "allow" else "deny"
  }

  /** The `name` or `name=value` parameter of a restriction. */
  function RestrictionParam(r: RestrictionCriteria): string {
    r.name + (if r.value.Some? then "=" + r.value.value else "")
  }

  /** The parameters `getSpec` writes for a criterion: type, path, privileges, then the restrictions in order. */
  function SpecParams(c: AceCriteria): seq<string> {
    [ParamType + "=" + TypeName(c.isAllow), ParamPath + "=" + c.path,
     ParamPrivileges + "=" + JavaString.Join(',', c.privileges)] +
    seq(|c.restrictions|, i requires 0 <= i < |c.restrictions| => RestrictionParam(c.restrictions[i]))
  }

  /** `getSpec`: the text the criterion was parsed from, or else its canonical text. */
  function GetSpec(c: AceCriteria): (r: string)
    ensures c.spec.Some? ==> r == c.spec.value
    ensures Printable(c) ==> JavaString.Split(JavaString.Trim(r), ';') == SpecParams(c)
  {
    if c.spec.Some? then c.spec.value
    else
      var text := JavaString.Join(';', SpecParams(c));
      if Printable(c) then SpecTextSplits(c); text else text
  }

  /** `toString`, which the violations of the check use as their description. */
  function Describe(c: AceCriteria): string {
    "principal:" + c.principal + " ace:" + GetSpec(c)
  }

  /** Text with no surrounding blanks and no ';'. */
  predicate Plain(s: string) {
    JavaString.Unpadded(s) && ';' !in s
  }

  /**
   * A criterion whose canonical text says everything about it: a principal, a plain path, plain privileges
   * without ',', and distinct plain restriction names without '=' that are not parameter names, each with no
   * value or a non-empty plain one.
   */
  predicate Printable(c: AceCriteria) {
    c.spec.None? && c.principal != "" && Plain(c.path) &&
    c.privileges != [] &&
    (forall i :: 0 <= i < |c.privileges| ==>
      c.privileges[i] != "" && Plain(c.privileges[i]) && ',' !in c.privileges[i]) &&
    (forall i :: 0 <= i < |c.restrictions| ==>
      var r := c.restrictions[i];
      r.name != "" && Plain(r.name) && '=' !in r.name && !IsReserved(r.name) &&
      (r.value.Some? ==> r.value.value != "" && Plain(r.value.value))) &&
    (forall i, j :: 0 <= i < j < |c.restrictions| ==> c.restrictions[i].name != c.restrictions[j].name)
  }

  /** The parameters of a printable criterion's canonical text, as parsing reads them. */
  function SpecPairs(c: AceCriteria): seq<Param> {
    [(ParamType, Some(TypeName(c.isAllow))),
     (ParamPath, if c.path == "" then None else Some(c.path)),
     (ParamPrivileges, Some(JavaString.Join(',', c.privileges)))] +
    seq(|c.restrictions|, i requires 0 <= i < |c.restrictions| => (c.restrictions[i].name, c.restrictions[i].value))
  }

  /** `key=value` reads back as the key and the trimmed value. */
  lemma ParamOfKeyValue(key: string, value: string)
    requires '=' !in key
    ensures ParamOf(key + "=" + value) ==
      (key, if JavaString.Trim(value) == "" then None else Some(JavaString.Trim(value)))
  {
    JavaString.IndexOfAfter(key, '=', value);
    var s := key + "=" + value;
    assert s == key + ['='] + value;
    assert s[..|key|] == key && s[|key| + 1..] == value;
  }

  /** A join whose first and last items are unpadded and not empty is unpadded and not empty. */
  lemma JoinedUnpadded(sep: char, items: seq<string>)
    requires items != [] && items[0] != "" && JavaString.Unpadded(items[0])
    requires items[|items| - 1] != "" && JavaString.Unpadded(items[|items| - 1])
    ensures JavaString.Join(sep, items) != "" && JavaString.Unpadded(JavaString.Join(sep, items))
  {
    var joined := JavaString.Join(sep, items);
    var first := items[0];
    var last := items[|items| - 1];
    JavaString.JoinEnds(sep, items);
    assert joined[..|first|] == first;
    assert joined[0] == first[0];
    assert joined[|joined| - |last|..] == last;
    assert joined[|joined| - 1] == last[|last| - 1];
  }

  /** The privileges, joined with ',', read back as the same list. */
  lemma PrivilegesRoundTrip(privileges: seq<string>)
    requires privileges != []
    requires forall i :: 0 <= i < |privileges| ==> privileges[i] != "" && Plain(privileges[i]) && ',' !in privileges[i]
    ensures ListValues(JavaString.Join(',', privileges)) == privileges
  {
    var joined := JavaString.Join(',', privileges);
    JavaString.SplitJoin(privileges, ',');
    assert JavaString.Split(joined, ',') == privileges;
    var trimmed := seq(|privileges|, i requires 0 <= i < |privileges| => JavaString.Trim(privileges[i]));
    forall i | 0 <= i < |privileges|
      ensures trimmed[i] == privileges[i]
    {
      JavaString.TrimUntrimmed(privileges[i]);
    }
    assert trimmed == privileges;
    Seqs.FilterKeepsAll(privileges, NonEmpty);
  }

  /** The canonical text of a printable criterion reads back as its parameters. */
  lemma SpecTextPairs(c: AceCriteria)
    requires Printable(c)
    ensures ParamsOf(GetSpec(c)) == SpecPairs(c)
  {
    var parts := SpecParams(c);
    var text := GetSpec(c);
    assert JavaString.Split(JavaString.Trim(text), ';') == parts;
    var pairs := ParamsOf(text);
    assert |pairs| == |parts|;
    forall i | 0 <= i < |parts|
      ensures pairs[i] == SpecPairs(c)[i]
    {
      ParamOfSpecParam(c, i);
    }
  }

  /** The canonical text of a printable criterion splits back into its parameters. */
  lemma SpecTextSplits(c: AceCriteria)
    requires Printable(c)
    ensures JavaString.Split(JavaString.Trim(JavaString.Join(';', SpecParams(c))), ';') == SpecParams(c)
  {
    var parts := SpecParams(c);
    SpecParamsPlain(c);
    LastParamUnpadded(c);
    assert parts[0] == ParamType + "=" + TypeName(c.isAllow);
    UnpaddedAfter(ParamType + "=", TypeName(c.isAllow));
    JoinedUnpadded(';', parts);
    JavaString.TrimUntrimmed(JavaString.Join(';', SpecParams(c)));
    JavaString.SplitJoin(parts, ';');
  }

  /** No canonical parameter of a printable criterion is empty or holds ';'. */
  lemma SpecParamsPlain(c: AceCriteria)
    requires Printable(c)
    ensures forall i :: 0 <= i < |SpecParams(c)| ==> ';' !in SpecParams(c)[i] && SpecParams(c)[i] != ""
  {
    var parts := SpecParams(c);
    JavaString.JoinKeepsOut(',', c.privileges, ';');
    KeyValuePlain(ParamType, TypeName(c.isAllow));
    KeyValuePlain(ParamPath, c.path);
    KeyValuePlain(ParamPrivileges, JavaString.Join(',', c.privileges));
    forall i | 3 <= i < |parts|
      ensures ';' !in parts[i] && parts[i] != ""
    {
      var r := c.restrictions[i - 3];
      assert parts[i] == RestrictionParam(r);
      if r.value.Some? {
        KeyValuePlain(r.name, r.value.value);
      }
    }
  }

  /** `key=value` holds ';' only where the key or the value does. */
  lemma KeyValuePlain(key: string, value: string)
    requires key != "" && ';' !in key && ';' !in value
    ensures ';' !in key + "=" + value && key + "=" + value != ""
  {
  }

  /** `key=value` with an unpadded value reads back as the key and the value, absent when empty. */
  lemma ParamOfUnpadded(key: string, value: string)
    requires '=' !in key && JavaString.Unpadded(value)
    ensures ParamOf(key + "=" + value) == (key, if value == "" then None else Some(value))
  {
    ParamOfKeyValue(key, value);
    JavaString.TrimUntrimmed(value);
  }

  /** A restriction's parameter reads back as its name and value. */
  lemma ParamOfRestriction(r: RestrictionCriteria)
    requires '=' !in r.name && r.name != ""
    requires r.value.Some? ==> r.value.value != "" && JavaString.Unpadded(r.value.value)
    ensures ParamOf(RestrictionParam(r)) == (r.name, r.value)
  {
    if r.value.Some? {
      assert RestrictionParam(r) == r.name + "=" + r.value.value;
      ParamOfUnpadded(r.name, r.value.value);
      assert ParamOf(r.name + "=" + r.value.value) == (r.name, r.value);
    } else {
      assert RestrictionParam(r) == r.name;
    }
  }

  /** Each canonical parameter of a printable criterion reads back as its key and value. */
  lemma ParamOfSpecParam(c: AceCriteria, i: nat)
    requires Printable(c) && i < |SpecParams(c)|
    ensures ParamOf(SpecParams(c)[i]) == SpecPairs(c)[i]
  {
    if i == 0 {
      ParamOfUnpadded(ParamType, TypeName(c.isAllow));
    } else if i == 1 {
      ParamOfUnpadded(ParamPath, c.path);
    } else if i == 2 {
      ParamOfSpecPrivileges(c);
    } else {
      ParamOfSpecRestriction(c, i - 3);
    }
  }

  /** The privileges parameter of a printable criterion reads back as the joined privileges. */
  lemma ParamOfSpecPrivileges(c: AceCriteria)
    requires Printable(c)
    ensures ParamOf(SpecParams(c)[2]) == SpecPairs(c)[2]
  {
    JoinedUnpadded(',', c.privileges);
    ParamOfUnpadded(ParamPrivileges, JavaString.Join(',', c.privileges));
  }

  /** The parameter a printable criterion writes for a restriction reads back as that restriction. */
  lemma ParamOfSpecRestriction(c: AceCriteria, k: nat)
    requires Printable(c) && k < |c.restrictions|
    ensures ParamOf(SpecParams(c)[k + 3]) == SpecPairs(c)[k + 3]
  {
    var r := c.restrictions[k];
    assert SpecParams(c)[k + 3] == RestrictionParam(r);
    assert SpecPairs(c)[k + 3] == (r.name, r.value);
    ParamOfRestriction(r);
  }

  /** The last canonical parameter of a printable criterion is unpadded. */
  lemma LastParamUnpadded(c: AceCriteria)
    requires Printable(c)
    ensures var parts := SpecParams(c);
      JavaString.Unpadded(parts[|parts| - 1])
  {
    var parts := SpecParams(c);
    if |c.restrictions| == 0 {
      assert parts[|parts| - 1] == ParamPrivileges + "=" + JavaString.Join(',', c.privileges);
      PrivilegesParamUnpadded(c.privileges);
    } else {
      var r := c.restrictions[|c.restrictions| - 1];
      assert parts[|parts| - 1] == RestrictionParam(r);
      RestrictionParamUnpadded(r);
    }
  }

  /** The `privileges` parameter ends with the last privilege, so plain privileges leave it unpadded. */
  lemma PrivilegesParamUnpadded(privileges: seq<string>)
    requires privileges != [] && forall i :: 0 <= i < |privileges| ==> privileges[i] != "" && Plain(privileges[i])
    ensures JavaString.Unpadded(ParamPrivileges + "=" + JavaString.Join(',', privileges))
  {
    var key := ParamPrivileges + "=";
    assert key[0] == 'p';
    JoinedUnpadded(',', privileges);
    UnpaddedAfter(key, JavaString.Join(',', privileges));
  }

  /** Text that starts unpadded followed by unpadded, non-empty text is unpadded. */
  lemma UnpaddedAfter(head: string, tail: string)
    requires head != "" && !JavaString.IsTrimmed(head[0])
    requires tail != "" && JavaString.Unpadded(tail)
    ensures JavaString.Unpadded(head + tail)
  {
    assert (head + tail)[0] == head[0];
    assert (head + tail)[|head + tail| - 1] == tail[|tail| - 1];
  }

  /** A restriction with a plain name and no value or a plain one has an unpadded parameter. */
  lemma RestrictionParamUnpadded(r: RestrictionCriteria)
    requires r.name != "" && Plain(r.name) && (r.value.Some? ==> r.value.value != "" && Plain(r.value.value))
    ensures JavaString.Unpadded(RestrictionParam(r))
  {
    var param := RestrictionParam(r);
    assert param[0] == r.name[0];
    if r.value.Some? {
      assert param[|param| - 1] == r.value.value[|r.value.value| - 1];
    }
  }

  /** No key appears twice. */
  predicate DistinctKeys(pairs: seq<Param>) {
    forall i, j :: 0 <= i < j < |pairs| ==> pairs[i].0 != pairs[j].0
  }

  /** The keys of the parameters, in order. */
  function Keys(pairs: seq<Param>): (r: seq<string>)
    ensures |r| == |pairs| && forall i :: 0 <= i < |pairs| ==> r[i] == pairs[i].0
  {
    seq(|pairs|, i requires 0 <= i < |pairs| => pairs[i].0)
  }

  /** With distinct keys the value map succeeds and looks each key up to its own value. */
  lemma ValueMapLookup(pairs: seq<Param>, i: nat)
    requires DistinctKeys(pairs) && i < |pairs|
    ensures ValueMap(pairs).Success?
    ensures Lookup(ValueMap(pairs).value, pairs[i].0) == pairs[i].1
  {
    ValueMapProperties(pairs);
    assert UniqueValuedKeys(pairs);
    assert forall j :: 0 <= j < |pairs| && pairs[j].0 == pairs[i].0 ==> j == i;
  }

  /** Parameters whose keys are all reserved name no restriction. */
  lemma {:induction false} RestrictionNamesReserved(pairs: seq<Param>)
    requires forall i :: 0 <= i < |pairs| ==> IsReserved(pairs[i].0)
    ensures RestrictionNames(pairs) == []
  {
    if |pairs| > 0 {
      var init := pairs[..|pairs| - 1];
      assert forall i :: 0 <= i < |init| ==> init[i] == pairs[i];
      RestrictionNamesReserved(init);
      assert IsReserved(pairs[|pairs| - 1].0);
    }
  }

  /** A new unreserved key is appended to the restriction names. */
  lemma RestrictionNamesStep(init: seq<Param>, last: Param)
    requires !IsReserved(last.0) && last.0 !in RestrictionNames(init)
    ensures RestrictionNames(init + [last]) == RestrictionNames(init) + [last.0]
  {
    assert (init + [last])[..|init|] == init;
  }

  /** After parameters with reserved keys, distinct unreserved keys are the restriction names, in order. */
  lemma {:induction false} RestrictionNamesKeys(head: seq<Param>, tail: seq<Param>)
    requires forall i :: 0 <= i < |head| ==> IsReserved(head[i].0)
    requires DistinctKeys(tail) && forall i :: 0 <= i < |tail| ==> !IsReserved(tail[i].0)
    ensures RestrictionNames(head + tail) == Keys(tail)
    decreases |tail|
  {
    if |tail| == 0 {
      RestrictionNamesReserved(head);
      assert tail == [] && head + [] == head;
    } else {
      var init := tail[..|tail| - 1];
      var last := tail[|tail| - 1];
      UnreservedInit(tail);
      RestrictionNamesKeys(head, init);
      RestrictionNamesStep(head + init, last);
      assert head + tail == (head + init) + [last];
      assert Keys(tail) == Keys(init) + [last.0];
    }
  }

  /** Dropping the last of distinct unreserved parameters leaves distinct unreserved ones without its key. */
  lemma UnreservedInit(tail: seq<Param>)
    requires |tail| > 0
    requires DistinctKeys(tail) && forall i :: 0 <= i < |tail| ==> !IsReserved(tail[i].0)
    ensures var init := tail[..|tail| - 1];
      DistinctKeys(init) && (forall i :: 0 <= i < |init| ==> !IsReserved(init[i].0)) &&
      tail[|tail| - 1].0 !in Keys(init)
  {
    var init := tail[..|tail| - 1];
    assert forall i :: 0 <= i < |init| ==> init[i] == tail[i];
  }

  /** The parameters of a printable criterion have distinct keys. */
  lemma SpecPairsDistinct(c: AceCriteria)
    requires Printable(c)
    ensures DistinctKeys(SpecPairs(c))
  {
    var pairs := SpecPairs(c);
    forall i, j | 0 <= i < j < |pairs|
      ensures pairs[i].0 != pairs[j].0
    {
      if j >= 3 {
        assert pairs[j].0 == c.restrictions[j - 3].name;
        if i >= 3 {
          assert pairs[i].0 == c.restrictions[i - 3].name;
        }
      }
    }
  }

  /** The restrictions of a printable criterion are read back from its parameters in order. */
  lemma SpecRestrictionNames(c: AceCriteria)
    requires Printable(c)
    ensures RestrictionNames(SpecPairs(c)) == seq(|c.restrictions|, k requires 0 <= k < |c.restrictions| => c.restrictions[k].name)
  {
    var pairs := SpecPairs(c);
    var head := pairs[..3];
    var tail := pairs[3..];
    assert pairs == head + tail;
    SpecPairsDistinct(c);
    assert DistinctKeys(tail) by {
      forall i, j | 0 <= i < j < |tail| ensures tail[i].0 != tail[j].0 {
        assert tail[i] == pairs[i + 3] && tail[j] == pairs[j + 3];
      }
    }
    forall i | 0 <= i < |tail| ensures !IsReserved(tail[i].0) {
      assert tail[i].0 == c.restrictions[i].name;
    }
    RestrictionNamesKeys(head, tail);
  }

  /** The type, path and privileges parameters of a printable criterion, as the value map holds them. */
  lemma SpecHeadLookups(c: AceCriteria)
    requires Printable(c)
    ensures ValueMap(SpecPairs(c)).Success?
    ensures var values := ValueMap(SpecPairs(c)).value;
      Lookup(values, ParamType) == Some(TypeName(c.isAllow)) &&
      Lookup(values, ParamPath) == (if c.path == "" then None else Some(c.path)) &&
      Lookup(values, ParamPrivileges) == Some(JavaString.Join(',', c.privileges))
  {
    var pairs := SpecPairs(c);
    SpecPairsDistinct(c);
    ValueMapLookup(pairs, 0);
    ValueMapLookup(pairs, 1);
    ValueMapLookup(pairs, 2);
  }

  /** The type, path and privileges values of a printable criterion's parameters are its own. */
  lemma SpecValues(c: AceCriteria)
    requires Printable(c)
    ensures ValueMap(SpecPairs(c)).Success?
    ensures var values := ValueMap(SpecPairs(c)).value;
      ParamType in values && TypeForName(values[ParamType]) == Some(c.isAllow) &&
      HasKey(SpecPairs(c), ParamPath) && PathOf(values) == c.path && PrivilegesOf(values) == c.privileges
  {
    SpecHeadLookups(c);
    assert SpecPairs(c)[1].0 == ParamPath;
    JavaString.TrimUntrimmed(c.path);
    PrivilegesRoundTrip(c.privileges);
  }

  /** A restriction of a printable criterion, as the value map holds its value. */
  lemma SpecRestrictionLookup(c: AceCriteria, k: nat)
    requires Printable(c) && k < |c.restrictions|
    ensures ValueMap(SpecPairs(c)).Success?
    ensures Lookup(ValueMap(SpecPairs(c)).value, c.restrictions[k].name) == c.restrictions[k].value
  {
    var pairs := SpecPairs(c);
    SpecPairsDistinct(c);
    assert pairs[k + 3] == (c.restrictions[k].name, c.restrictions[k].value);
    ValueMapLookup(pairs, k + 3);
  }

  /** The restrictions read back from a printable criterion's parameters are its own. */
  lemma SpecRestrictions(c: AceCriteria)
    requires Printable(c)
    ensures ValueMap(SpecPairs(c)).Success?
    ensures RestrictionsOf(SpecPairs(c), ValueMap(SpecPairs(c)).value) == c.restrictions
  {
    SpecHeadLookups(c);
    SpecRestrictionNames(c);
    var restrictions := RestrictionsOf(SpecPairs(c), ValueMap(SpecPairs(c)).value);
    forall k | 0 <= k < |c.restrictions|
      ensures restrictions[k] == c.restrictions[k]
    {
      SpecRestrictionLookup(c, k);
    }
  }

  /**
   * The round trip of `getSpec` and `parse`: a printable criterion's canonical text parses back to the same
   * criterion, now remembering that text.
   */
  lemma ParseGetSpec(c: AceCriteria)
    requires Printable(c)
    ensures Parse(c.principal, GetSpec(c)) == Returned(Success(c.(spec := Some(GetSpec(c)))))
  {
    SpecTextPairs(c);
    SpecValues(c);
    SpecRestrictions(c);
  }

  /** A parsed criterion prints as the text it was parsed from. */
  lemma GetSpecParsed(principal: string, spec: string)
    requires Parse(principal, spec).Returned? && Parse(principal, spec).result.Success?
    ensures GetSpec(Parse(principal, spec).result.value) == spec
  {
  }

  /** A privilege an entry grants: its name and the names of the privileges it aggregates. */
  datatype Privilege = Privilege(name: string, aggregates: seq<string>)

  /**
   * An access control entry: allow or deny, the principal's name, the privileges, and the values of each
   * restriction it carries.
   */
  datatype Ace = Ace(isAllow: bool, principalName: string, privileges: seq<Privilege>,
                     restrictions: map<string, seq<string>>)

  /**
   * An access control list: its entries, the restriction names it allows, and which of those are
   * multi-valued.
   */
  datatype Acl = Acl(entries: seq<Ace>, restrictionNames: seq<string>, multiValued: set<string>)

  /**
   * The value `getRestriction` gives for a restriction carried with exactly one value; none when the entry does not
   * carry it, and also none when it carries several values, where the repository throws instead.
   */
  function SingleValue(ace: Ace, name: string): Option<string> {
    if name in ace.restrictions && |ace.restrictions[name]| == 1 then Some(ace.restrictions[name][0]) else None
  }

  /** The trimmed values of a restriction, none when the entry does not carry it. */
  function DefinedValues(ace: Ace, name: string): (r: seq<string>)
    ensures name !in ace.restrictions ==> r == []
  {
    var values := if name in ace.restrictions then ace.restrictions[name] else [];
    seq(|values|, i requires 0 <= i < |values| => JavaString.Trim(values[i]))
  }

  /**
   * `RestrictionCriteria.satisfiedBy`: without a value, the entry must carry the restriction; a multi-valued
   * restriction must define every listed value, after trimming; a single-valued one must have exactly the
   * value.
   */
  function RestrictionSatisfiedBy(r: RestrictionCriteria, multi: bool, ace: Ace): (b: bool)
    ensures r.value.None? ==> (b <==> r.name in ace.restrictions)
    ensures r.value.Some? && multi ==>
      (b <==> forall i :: 0 <= i < |ListValues(r.value.value)| ==> ListValues(r.value.value)[i] in DefinedValues(ace, r.name))
    ensures r.value.Some? && !multi ==> (b <==> SingleValue(ace, r.name) == r.value)
  {
    if r.value.None? then r.name in ace.restrictions
    else if multi then
      var expecteds := ListValues(r.value.value);
      var defineds := DefinedValues(ace, r.name);
      forall i :: 0 <= i < |expecteds| ==> expecteds[i] in defineds
    else SingleValue(ace, r.name) == r.value
  }

  /**
   * `restrictionMatcher`: every restriction of the criterion that the list allows is satisfied by the entry;
   * restrictions the list does not allow are ignored.
   */
  function RestrictionsMatch(restrictions: seq<RestrictionCriteria>, acl: Acl, ace: Ace): (b: bool)
    ensures b <==> forall i :: 0 <= i < |restrictions| && restrictions[i].name in acl.restrictionNames ==>
      RestrictionSatisfiedBy(restrictions[i], restrictions[i].name in acl.multiValued, ace)
  {
    if |restrictions| == 0 then true
    else
      forall i :: 0 <= i < |restrictions| && restrictions[i].name in acl.restrictionNames ==>
        RestrictionSatisfiedBy(restrictions[i], restrictions[i].name in acl.multiValued, ace)
  }

  /** An entry the criterion considers: same type, same principal, and matching restrictions. */
  predicate Matchable(c: AceCriteria, acl: Acl, ace: Ace) {
    ace.isAllow == c.isAllow && ace.principalName == c.principal && RestrictionsMatch(c.restrictions, acl, ace)
  }

  /** The entry grants the privilege, by name or as an aggregate of one of its privileges. */
  predicate Grants(ace: Ace, privilege: string) {
    exists p :: p in ace.privileges && (p.name == privilege || privilege in p.aggregates)
  }

  /**
   * What `satisfiedBy` promises: each privilege of the criterion is granted by some matchable entry of the
   * list. The path of the criterion plays no part.
   */
  predicate SatisfiedBy(c: AceCriteria, acl: Acl) {
    forall i :: 0 <= i < |c.privileges| ==>
      exists e :: e in acl.entries && Matchable(c, acl, e) && Grants(e, c.privileges[i])
  }

  /** The names a run of privileges removes from the expected set: each name and each aggregate. */
  function Removed(privileges: seq<Privilege>): (r: set<string>)
    ensures forall x :: x in r <==> exists p :: p in privileges && (p.name == x || x in p.aggregates)
  {
    if |privileges| == 0 then {}
    else
      var init := privileges[..|privileges| - 1];
      var last := privileges[|privileges| - 1];
      assert privileges == init + [last];
      Removed(init) + {last.name} + set x | x in last.aggregates
  }

  /** The names the matchable entries among `entries` remove from the expected set. */
  function Covered(c: AceCriteria, acl: Acl, entries: seq<Ace>): (r: set<string>)
    ensures forall x :: x in r <==> exists e :: e in entries && Matchable(c, acl, e) && Grants(e, x)
  {
    if |entries| == 0 then {}
    else
      var init := entries[..|entries| - 1];
      var last := entries[|entries| - 1];
      assert entries == init + [last];
      Covered(c, acl, init) + (if Matchable(c, acl, last) then Removed(last.privileges) else {})
  }

  /** The criterion is satisfied exactly when the matchable entries remove every privilege it expects. */
  lemma SatisfiedByCovered(c: AceCriteria, acl: Acl)
    ensures SatisfiedBy(c, acl) <==> (set x | x in c.privileges) - Covered(c, acl, acl.entries) == {}
  {
    var left := (set x | x in c.privileges) - Covered(c, acl, acl.entries);
    if SatisfiedBy(c, acl) {
      forall x | x in c.privileges ensures x in Covered(c, acl, acl.entries) {
        var i :| 0 <= i < |c.privileges| && c.privileges[i] == x;
      }
    } else {
      var i :| 0 <= i < |c.privileges| && !exists e :: e in acl.entries && Matchable(c, acl, e) && Grants(e, c.privileges[i]);
      assert c.privileges[i] in left;
    }
  }

  /** The innermost loop of `satisfiedBy`: each aggregated privilege name is removed. */
  method RemoveNames(expected: set<string>, names: seq<string>) returns (r: set<string>)
    ensures r == expected - (set x | x in names)
  {
    r := expected;
    for k := 0 to |names|
      invariant r == expected - (set x | x in names[..k])
    {
      assert forall x :: x in names[..k + 1] <==> x in names[..k] || x == names[k];
      r := r - {names[k]};
    }
    assert names[..|names|] == names;
  }

  /** The middle loop of `satisfiedBy`: each privilege of an entry removes its name and its aggregates. */
  method RemovePrivileges(expected: set<string>, privileges: seq<Privilege>) returns (r: set<string>)
    ensures r == expected - Removed(privileges)
  {
    r := expected;
    for j := 0 to |privileges|
      invariant r == expected - Removed(privileges[..j])
    {
      assert privileges[..j + 1][..j] == privileges[..j];
      var privilege := privileges[j];
      r := r - {privilege.name};
      r := RemoveNames(r, privilege.aggregates);
    }
    assert privileges[..|privileges|] == privileges;
  }

  /**
   * `AceCriteria.satisfiedBy`: the expected privileges start as the criterion's, each matchable entry removes
   * the names and aggregates of its privileges, and the criterion is satisfied when none remain.
   */
  method CheckSatisfiedBy(c: AceCriteria, acl: Acl) returns (r: bool)
    ensures r == SatisfiedBy(c, acl)
  {
    var expected := set x | x in c.privileges;
    for i := 0 to |acl.entries|
      invariant expected == (set x | x in c.privileges) - Covered(c, acl, acl.entries[..i])
    {
      assert acl.entries[..i + 1][..i] == acl.entries[..i];
      var entry := acl.entries[i];
      if Matchable(c, acl, entry) {
        expected := RemovePrivileges(expected, entry.privileges);
      }
    }
    assert acl.entries[..|acl.entries|] == acl.entries;
    SatisfiedByCovered(c, acl);
    r := expected == {};
  }

  /** What `afterExtract` reads from the inspection session. */
  datatype Session = Session(repoPolicies: seq<Acl>, policies: string -> seq<Acl>, nodeExists: string -> bool)

  /**
   * The lists at a criterion path: the repository-level lists for the empty path, the lists of an existing
   * node, and none for a node that does not exist.
   */
  function PoliciesAt(session: Session, path: string): seq<Acl> {
    if path == "" then session.repoPolicies
    else if session.nodeExists(path) then session.policies(path)
    else []
  }

  /** Some list satisfies the criterion. */
  predicate AnySatisfies(acls: seq<Acl>, c: AceCriteria) {
    exists i :: 0 <= i < |acls| && SatisfiedBy(c, acls[i])
  }

  /** `anyMatch(criteria::satisfiedBy)` over the lists at a path, stopping at the first list that satisfies. */
  method AnyMatch(acls: seq<Acl>, c: AceCriteria) returns (r: bool)
    ensures r == AnySatisfies(acls, c)
  {
    for i := 0 to |acls|
      invariant forall j :: 0 <= j < i ==> !SatisfiedBy(c, acls[j])
    {
      r := CheckSatisfiedBy(c, acls[i]);
      if r {
        return;
      }
    }
    r := false;
  }

  /** The expected criteria `afterExtract` charges: those no list at their path satisfies. */
  function Unsatisfied(session: Session): AceCriteria -> bool {
    (c: AceCriteria) => !AnySatisfies(PoliciesAt(session, c.path), c)
  }

  /** The unexpected criteria `afterExtract` charges: those some list at their path satisfies. */
  function Satisfied(session: Session): AceCriteria -> bool {
    (c: AceCriteria) => AnySatisfies(PoliciesAt(session, c.path), c)
  }

  /** The test of `groupCriteriaByPath` for one path. */
  function AtPath(path: string): AceCriteria -> bool {
    (c: AceCriteria) => c.path == path
  }

  /** The criteria at one path, in their order: a group of `groupCriteriaByPath`. */
  function Group(criteria: seq<AceCriteria>, path: string): (r: seq<AceCriteria>)
    ensures forall i :: 0 <= i < |r| ==> r[i].path == path
  {
    Seqs.Filter(criteria, AtPath(path))
  }

  /** The paths of the criteria, each once, in the order they first occur: the keys of the grouping. */
  function PathsOf(criteria: seq<AceCriteria>): (r: seq<string>)
    ensures forall i, j :: 0 <= i < j < |r| ==> r[i] != r[j]
    ensures forall p :: p in r <==> exists c :: c in criteria && c.path == p
  {
    if |criteria| == 0 then []
    else
      var init := criteria[..|criteria| - 1];
      var last := criteria[|criteria| - 1];
      assert criteria == init + [last];
      var prior := PathsOf(init);
      if last.path in prior then prior else prior + [last.path]
  }

  /** `allPaths`: the expected criteria's paths, then the unexpected criteria's paths not among them. */
  function AllPaths(expected: seq<AceCriteria>, notExpected: seq<AceCriteria>): (r: seq<string>)
    ensures forall i, j :: 0 <= i < j < |r| ==> r[i] != r[j]
    ensures forall c :: c in expected || c in notExpected ==> c.path in r
  {
    Seqs.AddAll(PathsOf(expected), PathsOf(notExpected))
  }

  /** The criteria in the order `afterExtract` visits them: the group of each path in turn. */
  function Visit(criteria: seq<AceCriteria>, paths: seq<string>): seq<AceCriteria> {
    if |paths| == 0 then []
    else Visit(criteria, paths[..|paths| - 1]) + Group(criteria, paths[|paths| - 1])
  }

  /** A criterion occurs in the group of its own path as often as in the whole list, and in no other group. */
  lemma {:induction false} CountGroup(criteria: seq<AceCriteria>, path: string, c: AceCriteria)
    ensures Count(Group(criteria, path), c) == if c.path == path then Count(criteria, c) else 0
  {
    if |criteria| > 0 {
      var init := criteria[..|criteria| - 1];
      var last := criteria[|criteria| - 1];
      CountGroup(init, path, c);
      if last.path == path {
        CountAppend(Group(init, path), [last], c);
      }
    }
  }

  /** Visiting distinct paths meets a criterion once per occurrence when its path is among them. */
  lemma {:induction false} CountVisit(criteria: seq<AceCriteria>, paths: seq<string>, c: AceCriteria)
    requires forall i, j :: 0 <= i < j < |paths| ==> paths[i] != paths[j]
    ensures Count(Visit(criteria, paths), c) == if c.path in paths then Count(criteria, c) else 0
  {
    if |paths| > 0 {
      var init := paths[..|paths| - 1];
      var last := paths[|paths| - 1];
      assert paths == init + [last];
      CountVisit(criteria, init, c);
      CountAppend(Visit(criteria, init), Group(criteria, last), c);
      CountGroup(criteria, last, c);
    }
  }

  /** How `finishedScan` describes an expected criterion that was not satisfied. */
  function ExpectedText(c: AceCriteria): string {
    "expected: " + Describe(c)
  }

  /** How `finishedScan` describes an unexpected criterion that was satisfied. */
  function UnexpectedText(c: AceCriteria): string {
    "unexpected: " + Describe(c)
  }

  /** The check's state; `reported` is the list of violations a simple progress check collects. */
  class Check {
    const expectedAces: seq<AceCriteria>
    const notExpectedAces: seq<AceCriteria>
    const afterPackageIdRules: seq<Rules.Rule>
    /** Evaluates the rules' regular expressions. */
    const regex: Rules.RegexMatcher
    var expectedViolators: ViolatorMap<AceCriteria>
    var notExpectedViolators: ViolatorMap<AceCriteria>
    var reported: seq<Violation>

    ghost predicate Valid()
      reads this
    {
      expectedViolators.Valid() && notExpectedViolators.Valid()
    }

    constructor (expectedAces: seq<AceCriteria>, notExpectedAces: seq<AceCriteria>,
                 afterPackageIdRules: seq<Rules.Rule>, regex: Rules.RegexMatcher)
      ensures this.expectedAces == expectedAces && this.notExpectedAces == notExpectedAces
      ensures this.afterPackageIdRules == afterPackageIdRules && this.regex == regex
      ensures expectedViolators == EmptyMap() && notExpectedViolators == EmptyMap() && reported == []
      ensures Valid()
    {
      this.expectedAces := expectedAces;
      this.notExpectedAces := notExpectedAces;
      this.afterPackageIdRules := afterPackageIdRules;
      this.regex := regex;
      expectedViolators := EmptyMap();
      notExpectedViolators := EmptyMap();
      reported := [];
    }

    /** `startedScan`: the collected violations and both violator maps are cleared. */
    method StartedScan()
      modifies this
      ensures expectedViolators == EmptyMap() && notExpectedViolators == EmptyMap() && reported == []
      ensures Valid()
    {
      reported := [];
      expectedViolators := EmptyMap();
      notExpectedViolators := EmptyMap();
    }

    /**
     * `shouldExpectAfterExtract`: the two-argument last match of the package id rules is include-like. A
     * package some rule matches is expected exactly when the last rule matching it includes; a package no
     * rule matches is expected unless the first rule includes.
     */
    predicate ShouldExpectAfterExtract(id: PackageId): (r: bool)
      ensures (exists i :: 0 <= i < |afterPackageIdRules| && afterPackageIdRules[i].Matches(regex, id)) ==>
        (r <==> exists k :: 0 <= k < |afterPackageIdRules| && afterPackageIdRules[k].Matches(regex, id) &&
                            afterPackageIdRules[k].IsInclude() &&
                            forall j :: k < j < |afterPackageIdRules| ==> !afterPackageIdRules[j].Matches(regex, id))
      ensures (forall i :: 0 <= i < |afterPackageIdRules| ==> !afterPackageIdRules[i].Matches(regex, id)) ==>
        (r <==> |afterPackageIdRules| == 0 || !afterPackageIdRules[0].IsInclude())
    {
      Rules.LastMatchFuzzy(afterPackageIdRules, regex, id).IsInclude()
    }

    /** The first inner loop of `afterExtract`: each expected criterion of a group no list satisfies is charged. */
    method ChargeUnsatisfied(group: seq<AceCriteria>, policies: seq<Acl>, session: Session, id: PackageId)
      requires forall i :: 0 <= i < |group| ==> PoliciesAt(session, group[i].path) == policies
      modifies this
      ensures expectedViolators == ChargeAll(old(expectedViolators), group, Unsatisfied(session), id)
      ensures notExpectedViolators == old(notExpectedViolators) && reported == old(reported)
    {
      for k := 0 to |group|
        invariant expectedViolators == ChargeAll(old(expectedViolators), group[..k], Unsatisfied(session), id)
        invariant notExpectedViolators == old(notExpectedViolators) && reported == old(reported)
      {
        assert group[..k + 1][..k] == group[..k];
        var criteria := group[k];
        var satisfied := AnyMatch(policies, criteria);
        if !satisfied {
          var (withList, list) := GetViolatorList(expectedViolators, criteria);
          expectedViolators := withList.(lists := withList.lists[criteria := list + [id]]);
        }
      }
      assert group[..|group|] == group;
    }

    /** The second inner loop of `afterExtract`: each unexpected criterion of a group some list satisfies is charged. */
    method ChargeSatisfied(group: seq<AceCriteria>, policies: seq<Acl>, session: Session, id: PackageId)
      requires forall i :: 0 <= i < |group| ==> PoliciesAt(session, group[i].path) == policies
      modifies this
      ensures notExpectedViolators == ChargeAll(old(notExpectedViolators), group, Satisfied(session), id)
      ensures expectedViolators == old(expectedViolators) && reported == old(reported)
    {
      for k := 0 to |group|
        invariant notExpectedViolators == ChargeAll(old(notExpectedViolators), group[..k], Satisfied(session), id)
        invariant expectedViolators == old(expectedViolators) && reported == old(reported)
      {
        assert group[..k + 1][..k] == group[..k];
        var criteria := group[k];
        var satisfied := AnyMatch(policies, criteria);
        if satisfied {
          var (withList, list) := GetViolatorList(notExpectedViolators, criteria);
          notExpectedViolators := withList.(lists := withList.lists[criteria := list + [id]]);
        }
      }
      assert group[..|group|] == group;
    }

    /**
     * `afterExtract`, where `session` answers for the inspection session: for a package the rules select,
     * path by path, each expected criterion no list at its path satisfies and each unexpected criterion some
     * list there satisfies is charged to the package.
     */
    method AfterExtract(id: PackageId, session: Session)
      requires Valid()
      modifies this
      ensures Valid() && reported == old(reported)
      ensures expectedViolators ==
        if ShouldExpectAfterExtract(id) then
          ChargeAll(old(expectedViolators), Visit(expectedAces, AllPaths(expectedAces, notExpectedAces)), Unsatisfied(session), id)
        else old(expectedViolators)
      ensures notExpectedViolators ==
        if ShouldExpectAfterExtract(id) then
          ChargeAll(old(notExpectedViolators), Visit(notExpectedAces, AllPaths(expectedAces, notExpectedAces)), Satisfied(session), id)
        else old(notExpectedViolators)
    {
      if ShouldExpectAfterExtract(id) {
        var allPaths := AllPaths(expectedAces, notExpectedAces);
        for k := 0 to |allPaths|
          invariant expectedViolators == ChargeAll(old(expectedViolators), Visit(expectedAces, allPaths[..k]), Unsatisfied(session), id)
          invariant notExpectedViolators == ChargeAll(old(notExpectedViolators), Visit(notExpectedAces, allPaths[..k]), Satisfied(session), id)
          invariant reported == old(reported)
        {
          var path := allPaths[k];
          var policies := PoliciesAt(session, path);
          ghost var expectedBefore := expectedViolators;
          ghost var notExpectedBefore := notExpectedViolators;
          ChargeUnsatisfied(Group(expectedAces, path), policies, session, id);
          ChargeSatisfied(Group(notExpectedAces, path), policies, session, id);
          VisitStep(expectedAces, allPaths, k);
          VisitStep(notExpectedAces, allPaths, k);
          ChargeAllAppend(old(expectedViolators), Visit(expectedAces, allPaths[..k]), Group(expectedAces, path), Unsatisfied(session), id);
          ChargeAllAppend(old(notExpectedViolators), Visit(notExpectedAces, allPaths[..k]), Group(notExpectedAces, path), Satisfied(session), id);
        }
        assert allPaths[..|allPaths|] == allPaths;
        ChargeAllKeys(old(expectedViolators), Visit(expectedAces, allPaths), Unsatisfied(session), id);
        ChargeAllKeys(old(notExpectedViolators), Visit(notExpectedAces, allPaths), Satisfied(session), id);
      }
    }

    /** One loop of `finishedScan`: a MAJOR violation for each criterion of `m` with packages, in key order. */
    method ReportCharged(m: ViolatorMap<AceCriteria>, describe: AceCriteria -> string)
      modifies this
      ensures reported == old(reported) + Reports(m, describe)
      ensures expectedViolators == old(expectedViolators) && notExpectedViolators == old(notExpectedViolators)
    {
      for k := 0 to |m.keys|
        invariant reported == old(reported) + ReportsFor(m.keys[..k], m, describe)
        invariant expectedViolators == old(expectedViolators) && notExpectedViolators == old(notExpectedViolators)
      {
        assert m.keys[..k + 1][..k] == m.keys[..k];
        var criteria := m.keys[k];
        if m.Get(criteria) != [] {
          reported := reported + [Violation(Major, describe(criteria), m.Get(criteria))];
        }
      }
      assert m.keys[..|m.keys|] == m.keys;
    }

    /**
     * `finishedScan`: one MAJOR violation per unsatisfied expected criterion, in the order they were first
     * charged, then one per satisfied unexpected criterion; both maps are cleared.
     */
    method FinishedScan()
      modifies this
      ensures reported == old(reported) + Reports(old(expectedViolators), ExpectedText) +
                          Reports(old(notExpectedViolators), UnexpectedText)
      ensures expectedViolators == EmptyMap() && notExpectedViolators == EmptyMap() && Valid()
    {
      ReportCharged(expectedViolators, ExpectedText);
      expectedViolators := EmptyMap();
      ReportCharged(notExpectedViolators, UnexpectedText);
      notExpectedViolators := EmptyMap();
    }
  }

  /** Visiting one more path adds that path's group. */
  lemma VisitStep(criteria: seq<AceCriteria>, paths: seq<string>, k: nat)
    requires k < |paths|
    ensures Visit(criteria, paths[..k + 1]) == Visit(criteria, paths[..k]) + Group(criteria, paths[k])
  {
    assert paths[..k + 1][..k] == paths[..k];
  }

  /**
   * Over one `afterExtract`: a package the rules leave out charges nothing, and for a selected package each
   * expected criterion is charged once per time it is listed when no list at its path satisfies it, and
   * never otherwise.
   */
  lemma AfterExtractChargesExpected(m: ViolatorMap<AceCriteria>, expectedAces: seq<AceCriteria>,
                                    notExpectedAces: seq<AceCriteria>, selected: bool, id: PackageId,
                                    session: Session, c: AceCriteria)
    ensures var r := if selected then ChargeAll(m, Visit(expectedAces, AllPaths(expectedAces, notExpectedAces)), Unsatisfied(session), id) else m;
      r.Get(c) == m.Get(c) +
        (if selected && !AnySatisfies(PoliciesAt(session, c.path), c) then Repeat(id, Count(expectedAces, c)) else [])
  {
    var paths := AllPaths(expectedAces, notExpectedAces);
    ChargeAllLists(m, Visit(expectedAces, paths), Unsatisfied(session), id, c);
    CountVisit(expectedAces, paths, c);
  }

  /**
   * Over one `afterExtract`: for a selected package each unexpected criterion is charged once per time it
   * is listed when some list at its path satisfies it, and never otherwise.
   */
  lemma AfterExtractChargesUnexpected(m: ViolatorMap<AceCriteria>, expectedAces: seq<AceCriteria>,
                                      notExpectedAces: seq<AceCriteria>, selected: bool, id: PackageId,
                                      session: Session, c: AceCriteria)
    ensures var r := if selected then ChargeAll(m, Visit(notExpectedAces, AllPaths(expectedAces, notExpectedAces)), Satisfied(session), id) else m;
      r.Get(c) == m.Get(c) +
        (if selected && AnySatisfies(PoliciesAt(session, c.path), c) then Repeat(id, Count(notExpectedAces, c)) else [])
  {
    var paths := AllPaths(expectedAces, notExpectedAces);
    ChargeAllLists(m, Visit(notExpectedAces, paths), Satisfied(session), id, c);
    CountVisit(notExpectedAces, paths, c);
  }
}
