/**
 * Checklists: named bundles of check specs (plus node type, namespace, privilege and forced-root declarations)
 * shipped by a module. Their checks are exposed under names prefixed by module and checklist.
 */
module Checklists {
  import opened Wrappers
  import JavaString
  import Seqs
  import opened CheckSpecs

  /** The JSON keys of a checklist, in their canonical order. */
  const OrderedKeys: seq<string> :=
    ["name", "checks", "forcedRoots", "cndNames", "cndUrls", "jcrNodetypes", "jcrPrivileges", "jcrNamespaces"]

  /** `List.indexOf` over the ordered keys. */
  function KeyIndex(key: string): (k: int)
    ensures -1 <= k < |OrderedKeys|
    ensures k >= 0 ==> OrderedKeys[k] == key
    ensures k == -1 <==> key !in OrderedKeys
  {
    if key == "name" then 0
    else if key == "checks" then 1
    else if key == "forcedRoots" then 2
    else if key == "cndNames" then 3
    else if key == "cndUrls" then 4
    else if key == "jcrNodetypes" then 5
    else if key == "jcrPrivileges" then 6
    else if key == "jcrNamespaces" then 7
    else -1
  }

  /**
   * `checklistKeyComparator`: two known keys compare by their position in the canonical order, a known key
   * comes before an unknown one, and unknown keys compare as strings.
   */
  function CompareKeys(s1: string, s2: string): (c: int)
    ensures s1 in OrderedKeys && s2 in OrderedKeys ==> (c < 0 <==> KeyIndex(s1) < KeyIndex(s2))
    ensures s1 in OrderedKeys && s2 !in OrderedKeys ==> c < 0
    ensures s1 !in OrderedKeys && s2 in OrderedKeys ==> c > 0
    ensures s1 !in OrderedKeys && s2 !in OrderedKeys ==> c == JavaString.CompareStrings(s1, s2)
    ensures c == 0 <==> s1 == s2
  {
    var i1 := KeyIndex(s1);
    var i2 := KeyIndex(s2);
    if i1 >= 0 && i2 >= 0 then
      (if i1 < i2 then -1 else if i1 == i2 then 0 else 1)
    else if i1 >= 0 then -1
    else if i2 >= 0 then 1
    else JavaString.CompareStrings(s1, s2)
  }

  /** The key comparator is a total order: antisymmetric and transitive. */
  lemma CompareKeysOrder(s1: string, s2: string, s3: string)
    ensures CompareKeys(s1, s2) < 0 <==> CompareKeys(s2, s1) > 0
    ensures CompareKeys(s1, s2) < 0 && CompareKeys(s2, s3) < 0 ==> CompareKeys(s1, s3) < 0
  {
    JavaString.CompareStringsAntisymmetric(s1, s2);
    if CompareKeys(s1, s2) < 0 && CompareKeys(s2, s3) < 0 && s1 !in OrderedKeys {
      JavaString.CompareStringsTransitive(s1, s2, s3);
    }
  }

  /** The text Java's string concatenation gives for a possibly-null name. */
  function NameText(name: Option<string>): string {
    name.GetOrElse("null")
  }

  /**
   * `getCheckPrefix`: nothing when neither name is set, the module name and "/" when the checklist name is
   * empty or repeats the module name, and otherwise the module prefix, the checklist name and "/".
   */
  function GetCheckPrefix(moduleName: Option<string>, checklistName: Option<string>): (r: string)
    ensures r == "" || JavaString.EndsWith(r, "/")
    ensures CheckSpecs.IsEmptyText(moduleName) && (CheckSpecs.IsEmptyText(checklistName) || checklistName == moduleName)
      ==> r == ""
    ensures !CheckSpecs.IsEmptyText(moduleName) && (CheckSpecs.IsEmptyText(checklistName) || checklistName == moduleName)
      ==> r == moduleName.value + "/"
    ensures !CheckSpecs.IsEmptyText(checklistName) && checklistName != moduleName ==>
      r == (if CheckSpecs.IsEmptyText(moduleName) then "" else moduleName.value + "/") + checklistName.value + "/"
  {
    var modulePrefix := if moduleName.Some? && moduleName.value != "" then moduleName.value + "/" else "";
    if checklistName.Some? && checklistName.value != "" && checklistName != moduleName
    then modulePrefix + checklistName.value + "/"
    else modulePrefix
  }

  /** `isValidCheckspec`: a concrete spec with a non-empty name that has no "/". */
  predicate IsValidCheckspec(check: Spec) {
    !check.IsAbstract() && check.name.Some? && check.name.value != "" && '/' !in check.name.value
  }

  datatype Checklist = Checklist(
    moduleName: Option<string>,
    name: Option<string>,
    cndUrls: seq<string>,
    jcrNamespaces: seq<(string, string)>,
    jcrNodetypes: seq<string>,
    jcrPrivileges: seq<string>,
    forcedRoots: seq<string>,
    checks: seq<Spec>)
  {
    /** `getChecks`: every check, in order, renamed with the checklist's prefix. */
    function GetChecks(): (r: seq<Spec>)
      ensures |r| == |checks|
      ensures forall i :: 0 <= i < |r| ==>
        r[i] == checks[i].(name := Some(GetCheckPrefix(moduleName, name) + NameText(checks[i].name)))
    {
      seq(|checks|, i requires 0 <= i < |checks| =>
        checks[i].(name := Some(GetCheckPrefix(moduleName, name) + NameText(checks[i].name))))
    }
  }

  /** Prepending text to a name that is not blank leaves it not blank. */
  lemma NonBlankAfterPrefix(prefix: string, name: string)
    requires CheckSpecs.IsNonBlank(Some(name))
    ensures CheckSpecs.IsNonBlank(Some(prefix + name))
  {
    JavaString.TrimEmptyIff(name);
    JavaString.TrimEmptyIff(prefix + name);
    var k :| 0 <= k < |name| && !JavaString.IsTrimmed(name[k]);
    assert (prefix + name)[|prefix| + k] == name[k];
  }

  /** A name behind a prefix ending in "/" ends with "/" and the name. */
  lemma SlashPrefixedEndsWith(prefix: string, name: string)
    requires JavaString.EndsWith(prefix, "/")
    ensures JavaString.EndsWith(prefix + name, "/" + name)
  {
    assert prefix == prefix[..|prefix| - 1] + "/";
    assert prefix + name == prefix[..|prefix| - 1] + ("/" + name);
  }

  /**
   * A prefixed check can still be addressed by its short name: an abstract, named override spelled like the
   * check overrides the prefixed check.
   */
  lemma ShortNameOverridesPrefixedCheck(checklist: Checklist, i: int, override: Spec)
    requires 0 <= i < |checklist.checks|
    requires override.IsAbstract() && override.NotUnnamed() && !override.MustInherit()
    requires !checklist.checks[i].MustInherit() && override.name == checklist.checks[i].name
    ensures override.Overrides(checklist.GetChecks()[i])
  {
    var prefix := GetCheckPrefix(checklist.moduleName, checklist.name);
    var short := override.name.value;
    assert checklist.GetChecks()[i].name == Some(prefix + short);
    NonBlankAfterPrefix(prefix, short);
    if prefix != "" {
      SlashPrefixedEndsWith(prefix, short);
    } else {
      assert prefix + short == short;
    }
  }

  /** `Checklist.Builder`: collects declarations, then freezes them into a checklist. */
  class Builder {
    const moduleName: string
    var name: Option<string>
    var cndUrls: seq<string>
    var jcrNamespaces: seq<(string, string)>
    var jcrNodetypes: seq<string>
    var jcrPrivileges: seq<string>
    var forcedRoots: seq<string>
    var checks: seq<Spec>

    constructor (moduleName: string)
      ensures this.moduleName == moduleName && name.None?
      ensures cndUrls == [] && jcrNamespaces == [] && jcrNodetypes == [] && jcrPrivileges == []
      ensures forcedRoots == [] && checks == []
    {
      this.moduleName := moduleName;
      name := None;
      cndUrls, jcrNamespaces, jcrNodetypes, jcrPrivileges, forcedRoots, checks := [], [], [], [], [], [];
    }

    method WithName(name: Option<string>)
      modifies this
      ensures this.name == name
      ensures cndUrls == old(cndUrls) && jcrNamespaces == old(jcrNamespaces) && jcrNodetypes == old(jcrNodetypes)
      ensures jcrPrivileges == old(jcrPrivileges) && forcedRoots == old(forcedRoots) && checks == old(checks)
    {
      this.name := name;
    }

    method WithCndUrls(urls: seq<string>)
      modifies this
      ensures cndUrls == old(cndUrls) + urls
      ensures name == old(name) && jcrNamespaces == old(jcrNamespaces) && jcrNodetypes == old(jcrNodetypes)
      ensures jcrPrivileges == old(jcrPrivileges) && forcedRoots == old(forcedRoots) && checks == old(checks)
    {
      cndUrls := cndUrls + urls;
    }

    method WithJcrNamespaces(namespaces: seq<(string, string)>)
      modifies this
      ensures jcrNamespaces == old(jcrNamespaces) + namespaces
      ensures name == old(name) && cndUrls == old(cndUrls) && jcrNodetypes == old(jcrNodetypes)
      ensures jcrPrivileges == old(jcrPrivileges) && forcedRoots == old(forcedRoots) && checks == old(checks)
    {
      jcrNamespaces := jcrNamespaces + namespaces;
    }

    method WithJcrNodetypes(nodetypes: seq<string>)
      modifies this
      ensures jcrNodetypes == old(jcrNodetypes) + nodetypes
      ensures name == old(name) && cndUrls == old(cndUrls) && jcrNamespaces == old(jcrNamespaces)
      ensures jcrPrivileges == old(jcrPrivileges) && forcedRoots == old(forcedRoots) && checks == old(checks)
    {
      jcrNodetypes := jcrNodetypes + nodetypes;
    }

    method WithJcrPrivileges(privileges: seq<string>)
      modifies this
      ensures jcrPrivileges == old(jcrPrivileges) + privileges
      ensures name == old(name) && cndUrls == old(cndUrls) && jcrNamespaces == old(jcrNamespaces)
      ensures jcrNodetypes == old(jcrNodetypes) && forcedRoots == old(forcedRoots) && checks == old(checks)
    {
      jcrPrivileges := jcrPrivileges + privileges;
    }

    method WithForcedRoots(roots: seq<string>)
      modifies this
      ensures forcedRoots == old(forcedRoots) + roots
      ensures name == old(name) && cndUrls == old(cndUrls) && jcrNamespaces == old(jcrNamespaces)
      ensures jcrNodetypes == old(jcrNodetypes) && jcrPrivileges == old(jcrPrivileges) && checks == old(checks)
    {
      forcedRoots := forcedRoots + roots;
    }

    /** `withChecks`: appends the valid specs, in order, and drops the rest. */
    method WithChecks(specs: seq<Spec>)
      modifies this
      ensures checks == old(checks) + Seqs.Filter(specs, IsValidCheckspec)
      ensures forall i :: 0 <= i < |checks| ==> (IsValidCheckspec(checks[i]) || i < |old(checks)|)
      ensures name == old(name) && cndUrls == old(cndUrls) && jcrNamespaces == old(jcrNamespaces)
      ensures jcrNodetypes == old(jcrNodetypes) && jcrPrivileges == old(jcrPrivileges)
      ensures forcedRoots == old(forcedRoots)
    {
      checks := checks + Seqs.Filter(specs, IsValidCheckspec);
    }

    /** `build`: the checklist, named after the module when no name was given. */
    function Build(): (c: Checklist)
      reads this
      ensures c.moduleName == Some(moduleName)
      ensures c.name == Some(name.GetOrElse(moduleName))
      ensures c.checks == checks && c.cndUrls == cndUrls && c.forcedRoots == forcedRoots
      ensures c.jcrNamespaces == jcrNamespaces && c.jcrNodetypes == jcrNodetypes && c.jcrPrivileges == jcrPrivileges
    {
      Checklist(Some(moduleName), Some(name.GetOrElse(moduleName)), cndUrls, jcrNamespaces, jcrNodetypes,
                jcrPrivileges, forcedRoots, checks)
    }
  }
}
