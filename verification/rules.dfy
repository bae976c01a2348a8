/** Severities and violations shared by the checks and the report writers. */
module Violations {
  import opened Wrappers

  /** The package identifier, by its canonical text `group:name:version`. */
  type PackageId = string

  /** Ordered from least to most severe. */
  datatype Severity = Minor | Major | Severe {
    function Rank(): nat {
      match this
      case Minor => 0
      case Major => 1
      case Severe => 2
    }

    function Name(): string {
      match this
      case Minor => "MINOR"
      case Major => "MAJOR"
      case Severe => "SEVERE"
    }

    /** `Severity.maxSeverity`: the more severe of the two. */
    function Max(other: Severity): (r: Severity)
      ensures r == this || r == other
      ensures r.Rank() >= Rank() && r.Rank() >= other.Rank()
    {
      if other.Rank() > Rank() then other else this
    }

    /** `meetsMinimumSeverity`: at least as severe as `minimum`. */
    predicate Meets(minimum: Severity) {
      Rank() >= minimum.Rank()
    }
  }

  /** `Severity.valueOf`: the severity with exactly this name, none when no constant has it. */
  function SeverityValueOf(name: string): (r: Option<Severity>)
    ensures r.Some? ==> r.value.Name() == name
    ensures r.None? ==> forall s: Severity :: s.Name() != name
  {
    if name == "MINOR" then Some(Minor)
    else if name == "MAJOR" then Some(Major)
    else if name == "SEVERE" then Some(Severe)
    else None
  }

  datatype Violation = Violation(severity: Severity, description: string, packages: seq<PackageId>)

  /** The violations one check reported, under the check's name. */
  datatype CheckReport = CheckReport(checkName: string, violations: seq<Violation>)
}

/**
 * Include/exclude rules evaluated in sequence: the last rule whose pattern matches a value decides, and a
 * default rule applies when none matches.
 */
module Rules {
  import opened Wrappers

  /** ALLOW and INCLUDE are include-like; DENY and EXCLUDE are exclude-like. */
  datatype RuleType = Include | Exclude | Allow | Deny

  /**
   * A compiled pattern. Regular expressions are evaluated by a matcher supplied by the caller;
   * the default rules use the pattern `.*`, which matches every value.
   */
  datatype Pattern = MatchAll | Regex(source: string) {
    /** `Pattern.pattern()`: the source text, `.*` for the match-all pattern. */
    function Text(): string {
      match this
      case MatchAll => ".*"
      case Regex(source) => source
    }
  }

  /** Full-match evaluation of a regular expression source against a value. */
  type RegexMatcher = (string, string) -> bool

  datatype Rule = Rule(ruleType: RuleType, pattern: Pattern) {
    predicate IsInclude() { ruleType == Include || ruleType == Allow }
    predicate IsExclude() { ruleType == Exclude || ruleType == Deny }
    predicate IsAllow() { IsInclude() }
    predicate IsDeny() { IsExclude() }

    predicate Matches(regex: RegexMatcher, value: string) {
      match pattern
      case MatchAll => true
      case Regex(source) => regex(source, value)
    }
  }

  const DefaultDeny := Rule(Deny, MatchAll)
  const DefaultAllow := Rule(Allow, MatchAll)
  const DefaultExclude := Rule(Exclude, MatchAll)
  const DefaultInclude := Rule(Include, MatchAll)

  /** DEFAULT_INCLUDE, unless the first rule is include-like, in which case DEFAULT_EXCLUDE. */
  function FuzzyDefaultInclude(rules: seq<Rule>): (r: Rule)
    ensures r.pattern == MatchAll
    ensures r.IsExclude() <==> (|rules| > 0 && rules[0].IsInclude())
    ensures r.IsInclude() <==> !r.IsExclude()
  {
    if |rules| > 0 && rules[0].IsInclude() then DefaultExclude else DefaultInclude
  }

  /** DEFAULT_EXCLUDE, unless the first rule is exclude-like, in which case DEFAULT_INCLUDE. */
  function FuzzyDefaultExclude(rules: seq<Rule>): (r: Rule)
    ensures r.pattern == MatchAll
    ensures r.IsInclude() <==> (|rules| > 0 && rules[0].IsExclude())
    ensures r.IsInclude() <==> !r.IsExclude()
  {
    if |rules| > 0 && rules[0].IsExclude() then DefaultInclude else DefaultExclude
  }

  /** `fuzzyDefaultAllow` delegates to `fuzzyDefaultInclude`. */
  function FuzzyDefaultAllow(rules: seq<Rule>): (r: Rule)
    ensures r == FuzzyDefaultInclude(rules)
    ensures r.IsDeny() <==> (|rules| > 0 && rules[0].IsAllow())
  {
    FuzzyDefaultInclude(rules)
  }

  /** `fuzzyDefaultDeny` delegates to `fuzzyDefaultExclude`. */
  function FuzzyDefaultDeny(rules: seq<Rule>): (r: Rule)
    ensures r == FuzzyDefaultExclude(rules)
    ensures r.IsAllow() <==> (|rules| > 0 && rules[0].IsDeny())
  {
    FuzzyDefaultExclude(rules)
  }

  /** A default-rule selector; Java's null selector is `None`. */
  type Selector = seq<Rule> -> Rule

  function SelectedDefault(rules: seq<Rule>, selectDefault: Option<Selector>): Rule {
    match selectDefault
    case Some(f) => f(rules)
    case None => DefaultInclude
  }

  /** The index of the last rule matching `value`, or -1 when none does. */
  function LastMatchIndex(rules: seq<Rule>, regex: RegexMatcher, value: string): (k: int)
    ensures -1 <= k < |rules|
    ensures k >= 0 ==> rules[k].Matches(regex, value)
    ensures forall j :: k < j < |rules| ==> !rules[j].Matches(regex, value)
  {
    if |rules| == 0 then -1
    else if rules[|rules| - 1].Matches(regex, value) then |rules| - 1
    else LastMatchIndex(rules[..|rules| - 1], regex, value)
  }

  /**
   * The rule that decides `value`: the last matching rule, or the selected default when no rule matches.
   */
  function LastMatch(rules: seq<Rule>, regex: RegexMatcher, value: string, selectDefault: Option<Selector>): (r: Rule)
    ensures (exists i :: 0 <= i < |rules| && rules[i].Matches(regex, value)) ==>
      exists k :: 0 <= k < |rules| && r == rules[k] && rules[k].Matches(regex, value) &&
        forall j :: k < j < |rules| ==> !rules[j].Matches(regex, value)
    ensures (forall i :: 0 <= i < |rules| ==> !rules[i].Matches(regex, value)) ==>
      r == SelectedDefault(rules, selectDefault)
  {
    var k := LastMatchIndex(rules, regex, value);
    if k < 0 then SelectedDefault(rules, selectDefault) else rules[k]
  }

  /** The two-argument `lastMatch`: the default is chosen by `fuzzyDefaultInclude`. */
  function LastMatchFuzzy(rules: seq<Rule>, regex: RegexMatcher, value: string): (r: Rule)
    ensures r == LastMatch(rules, regex, value, Some(FuzzyDefaultInclude))
    ensures (forall i :: 0 <= i < |rules| ==> !rules[i].Matches(regex, value)) ==>
      (r.IsExclude() <==> |rules| > 0 && rules[0].IsInclude())
  {
    LastMatch(rules, regex, value, Some(FuzzyDefaultInclude))
  }

  /** The loop of `Rules.lastMatch`: scans every rule, remembering the latest one that matches. */
  method LastMatchScan(rules: seq<Rule>, regex: RegexMatcher, value: string, selectDefault: Option<Selector>)
    returns (lastMatched: Rule)
    ensures lastMatched == LastMatch(rules, regex, value, selectDefault)
  {
    lastMatched := SelectedDefault(rules, selectDefault);
    var i := 0;
    while i < |rules|
      invariant 0 <= i <= |rules|
      invariant lastMatched == (if LastMatchIndex(rules[..i], regex, value) < 0
                                then SelectedDefault(rules, selectDefault)
                                else rules[LastMatchIndex(rules[..i], regex, value)])
    {
      assert rules[..i + 1][..i] == rules[..i];
      if rules[i].Matches(regex, value) {
        lastMatched := rules[i];
      }
      i := i + 1;
    }
    assert rules[..|rules|] == rules;
  }

  /** Rules that do not match a value never change the decision for it. */
  lemma {:induction false} NonMatchingSuffixIrrelevant(rules: seq<Rule>, tail: seq<Rule>, regex: RegexMatcher, value: string)
    requires forall j :: 0 <= j < |tail| ==> !tail[j].Matches(regex, value)
    ensures LastMatchIndex(rules + tail, regex, value) == LastMatchIndex(rules, regex, value)
    decreases |tail|
  {
    if |tail| > 0 {
      var shorter := tail[..|tail| - 1];
      assert (rules + tail)[..|rules + tail| - 1] == rules + shorter;
      NonMatchingSuffixIrrelevant(rules, shorter, regex, value);
    } else {
      assert rules + tail == rules;
    }
  }
}
