/**
 * The constraints the JcrProperties check applies to one property name on each node in its scope: the
 * property may be required, forbidden, forbidden to be multi-valued, required to have a type, and its string
 * values are judged by allow/deny rules. Evaluating a node gives at most one violation, for the first
 * constraint it breaks.
 */
module JcrPropertyConstraints {
  import opened Wrappers
  import opened Violations
  import JavaString
  import Rules

  /** The configured constraints on the property `name`. */
  datatype Constraints = Constraints(
    name: string,
    denyIfAbsent: bool,
    denyIfPresent: bool,
    denyIfMultivalued: bool,
    requireType: string,
    valueRules: seq<Rules.Rule>,
    severity: Severity)

  /**
   * A property as `evaluate` reads it: whether it is multi-valued, the name of its type, and its values as
   * strings, `value` being the one value of a single-valued property.
   */
  datatype Property = Property(multiple: bool, typeName: string, value: string, values: seq<string>)

  /** A node: its path, the names of its primary and mixin types, and its properties by name. */
  datatype Node = Node(path: string, primaryType: string, mixinTypes: seq<string>, properties: map<string, Property>)

  /** The string values `evaluate` judges: every value of a multi-valued property, or the single value. */
  function StringValues(p: Property): seq<string> {
    if p.multiple then p.values else [p.value]
  }

  /** Why a node breaks the constraints. */
  datatype Reason =
    | Absent
    | Present
    | Multivalued
    | TypeMismatch(actual: string, required: string)
    | ValueDenied(value: string, pattern: string)
  {
    function Text(): string {
      match this
      case Absent => "property absent"
      case Present => "property present"
      case Multivalued => "property is multivalued"
      case TypeMismatch(actual, required) => "required type mismatch: " + actual + " != " + required
      case ValueDenied(value, pattern) => "value " + value + " denied by pattern " + pattern
    }
  }

  /** A value is denied when the last rule matching it, or `fuzzyDefaultAllow` when none does, is deny-like. */
  predicate Denied(rules: seq<Rules.Rule>, regex: Rules.RegexMatcher, value: string) {
    Rules.LastMatch(rules, regex, value, Some(Rules.FuzzyDefaultAllow)).IsDeny()
  }

  /** The index of the first denied value, if any. */
  function FirstDenied(rules: seq<Rules.Rule>, regex: Rules.RegexMatcher, values: seq<string>): (r: Option<nat>)
    ensures r.Some? ==> r.value < |values| && Denied(rules, regex, values[r.value])
    ensures r.Some? ==> forall j :: 0 <= j < r.value ==> !Denied(rules, regex, values[j])
    ensures r.None? <==> forall j :: 0 <= j < |values| ==> !Denied(rules, regex, values[j])
  {
    if |values| == 0 then None
    else if Denied(rules, regex, values[0]) then Some(0)
    else
      var rest := values[1..];
      assert forall j :: 0 <= j < |rest| ==> rest[j] == values[j + 1];
      match FirstDenied(rules, regex, rest)
      case None => None
      case Some(k) => Some(k + 1)
  }

  /** The first constraint a node breaks, checked in the order `evaluate` checks them. */
  function Breach(c: Constraints, regex: Rules.RegexMatcher, node: Node): Option<Reason> {
    if c.name !in node.properties then
      if c.denyIfAbsent then Some(Absent) else None
    else if c.denyIfPresent then Some(Present)
    else
      var p := node.properties[c.name];
      if c.denyIfMultivalued && p.multiple then Some(Multivalued)
      else if c.requireType != "" && c.requireType != p.typeName then Some(TypeMismatch(p.typeName, c.requireType))
      else
        var values := StringValues(p);
        match FirstDenied(c.valueRules, regex, values)
        case None => None
        case Some(k) =>
          Some(ValueDenied(values[k],
                           Rules.LastMatch(c.valueRules, regex, values[k], Some(Rules.FuzzyDefaultAllow)).pattern.Text()))
  }

  /** `constructViolation`: the node's path, types and mixins, the reason and the property name. */
  function ConstructViolation(c: Constraints, id: PackageId, node: Node, reason: Reason): Violation {
    Violation(c.severity,
              node.path + " (t: " + node.primaryType + ", m: " + JavaString.ListText(node.mixinTypes) + "): " +
              reason.Text() + " -> " + c.name,
              [id])
  }

  /** What `evaluate` gives: a violation for the first constraint the node breaks, or none. */
  function Evaluate(c: Constraints, regex: Rules.RegexMatcher, id: PackageId, node: Node): Option<Violation> {
    match Breach(c, regex, node)
    case None => None
    case Some(reason) => Some(ConstructViolation(c, id, node, reason))
  }

  /** `evaluate`: the guards in order, then the rules applied in sequence to each value until one is denied. */
  method EvaluateNode(c: Constraints, regex: Rules.RegexMatcher, id: PackageId, node: Node)
    returns (r: Option<Violation>)
    ensures r == Evaluate(c, regex, id, node)
  {
    if c.name !in node.properties {
      if c.denyIfAbsent {
        return Some(ConstructViolation(c, id, node, Absent));
      }
      return None;
    }
    if c.denyIfPresent {
      return Some(ConstructViolation(c, id, node, Present));
    }
    var property := node.properties[c.name];
    if c.denyIfMultivalued && property.multiple {
      return Some(ConstructViolation(c, id, node, Multivalued));
    }
    if c.requireType != "" && c.requireType != property.typeName {
      return Some(ConstructViolation(c, id, node, TypeMismatch(property.typeName, c.requireType)));
    }
    var values := StringValues(property);
    for i := 0 to |values|
      invariant forall j :: 0 <= j < i ==> !Denied(c.valueRules, regex, values[j])
    {
      var lastMatch := Rules.LastMatchScan(c.valueRules, regex, values[i], Some(Rules.FuzzyDefaultAllow));
      if lastMatch.IsDeny() {
        return Some(ConstructViolation(c, id, node, ValueDenied(values[i], lastMatch.pattern.Text())));
      }
    }
    return None;
  }

  /** An absent property breaks the constraints exactly when they deny its absence. */
  lemma AbsentViolatesIff(c: Constraints, regex: Rules.RegexMatcher, node: Node)
    requires c.name !in node.properties
    ensures Breach(c, regex, node).Some? <==> c.denyIfAbsent
    ensures Breach(c, regex, node).Some? ==> Breach(c, regex, node) == Some(Absent)
  {
  }

  /** A present property that is denied is reported as present, whatever its values. */
  lemma PresentDeniedFirst(c: Constraints, regex: Rules.RegexMatcher, node: Node)
    requires c.name in node.properties && c.denyIfPresent
    ensures Breach(c, regex, node) == Some(Present)
  {
  }

  /** The multi-valued constraint applies only to a present, multi-valued property that may be present. */
  lemma MultivaluedOnlyMultiple(c: Constraints, regex: Rules.RegexMatcher, node: Node)
    ensures Breach(c, regex, node) == Some(Multivalued) <==>
      c.name in node.properties && !c.denyIfPresent && c.denyIfMultivalued && node.properties[c.name].multiple
  {
  }

  /** A type mismatch needs a required type, and names the property's type and the required one, which differ. */
  lemma TypeMismatchOnlyRequired(c: Constraints, regex: Rules.RegexMatcher, node: Node)
    requires Breach(c, regex, node).Some? && Breach(c, regex, node).value.TypeMismatch?
    ensures c.requireType != "" && c.name in node.properties
    ensures Breach(c, regex, node).value == TypeMismatch(node.properties[c.name].typeName, c.requireType)
    ensures node.properties[c.name].typeName != c.requireType
  {
  }

  /**
   * Once the property passes the presence, multi-valued and type constraints, a value is reported exactly
   * when some value is denied by its last matching rule; it is the first such value, with that rule's pattern.
   */
  lemma ValueDeniedIff(c: Constraints, regex: Rules.RegexMatcher, node: Node)
    requires c.name in node.properties && !c.denyIfPresent
    requires !(c.denyIfMultivalued && node.properties[c.name].multiple)
    requires c.requireType == "" || c.requireType == node.properties[c.name].typeName
    ensures var values := StringValues(node.properties[c.name]);
      Breach(c, regex, node).Some? <==> exists v :: v in values && Denied(c.valueRules, regex, v)
    ensures var values := StringValues(node.properties[c.name]);
      var r := Breach(c, regex, node);
      r.Some? ==>
        r.value.ValueDenied? &&
        exists k :: 0 <= k < |values| && r.value.value == values[k] && Denied(c.valueRules, regex, values[k]) &&
          (forall j :: 0 <= j < k ==> !Denied(c.valueRules, regex, values[j])) &&
          r.value.pattern ==
            Rules.LastMatch(c.valueRules, regex, values[k], Some(Rules.FuzzyDefaultAllow)).pattern.Text()
  {
    var values := StringValues(node.properties[c.name]);
    var first := FirstDenied(c.valueRules, regex, values);
    if exists v :: v in values && Denied(c.valueRules, regex, v) {
      var v :| v in values && Denied(c.valueRules, regex, v);
      var i :| 0 <= i < |values| && values[i] == v;
      assert first.Some?;
    }
  }

  /** With no value rules every value is allowed, so a property passing the other constraints is accepted. */
  lemma NoRulesAllowAll(c: Constraints, regex: Rules.RegexMatcher, value: string)
    requires c.valueRules == []
    ensures !Denied(c.valueRules, regex, value)
  {
  }
}
