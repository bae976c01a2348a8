/**
 * The checklist planner: selects the active checklists by id and computes the effective check specs, applying
 * the user's override specs to the selected checks and adding the overrides that stand on their own.
 */
module ChecklistPlanning {
  import opened Wrappers
  import JavaxJson
  import JavaString
  import Seqs
  import opened Rules
  import opened CheckSpecs
  import opened Checklists

  /** `isChecklistSelected`: the active id matches the checklist name, or the module name, "/" and the name. */
  predicate IsChecklistSelected(regex: RegexMatcher, activeId: string, checklist: Checklist) {
    regex(NameText(checklist.name), activeId) ||
    regex(NameText(checklist.moduleName) + "/" + NameText(checklist.name), activeId)
  }

  function SelectedBy(regex: RegexMatcher, activeId: string): Checklist -> bool {
    c => IsChecklistSelected(regex, activeId, c)
  }

  function NotSelectedBy(regex: RegexMatcher, activeId: string): Checklist -> bool {
    c => !IsChecklistSelected(regex, activeId, c)
  }

  /** The candidates left after offering `constructed` to every active id in turn; empty ids are skipped. */
  function Remaining(ids: seq<string>, constructed: seq<Checklist>, regex: RegexMatcher): seq<Checklist> {
    if |ids| == 0 then constructed
    else
      var prev := Remaining(ids[..|ids| - 1], constructed, regex);
      var id := ids[|ids| - 1];
      if id == "" then prev else Seqs.Filter(prev, NotSelectedBy(regex, id))
  }

  /** The checklists chosen by the active ids: each id takes every remaining candidate it matches. */
  function Selected(ids: seq<string>, constructed: seq<Checklist>, regex: RegexMatcher): seq<Checklist> {
    if |ids| == 0 then []
    else
      var init := ids[..|ids| - 1];
      var id := ids[|ids| - 1];
      Selected(init, constructed, regex) +
      (if id == "" then [] else Seqs.Filter(Remaining(init, constructed, regex), SelectedBy(regex, id)))
  }

  /** A left-over checklist was constructed and no non-empty active id matches it. */
  lemma {:induction false} RemainingUnmatched(ids: seq<string>, constructed: seq<Checklist>, regex: RegexMatcher)
    ensures forall k :: 0 <= k < |Remaining(ids, constructed, regex)| ==>
      Remaining(ids, constructed, regex)[k] in constructed
    ensures forall k, i :: 0 <= k < |Remaining(ids, constructed, regex)| && 0 <= i < |ids| && ids[i] != "" ==>
      !IsChecklistSelected(regex, ids[i], Remaining(ids, constructed, regex)[k])
  {
    if |ids| > 0 {
      var init := ids[..|ids| - 1];
      RemainingUnmatched(init, constructed, regex);
      assert forall i :: 0 <= i < |ids| - 1 ==> init[i] == ids[i];
    }
  }

  /** Some non-empty id of `ids` selects the checklist. */
  predicate MatchedBySome(regex: RegexMatcher, ids: seq<string>, c: Checklist) {
    exists i :: 0 <= i < |ids| && ids[i] != "" && IsChecklistSelected(regex, ids[i], c)
  }

  /** A checklist matched by an id of the front of a list is matched by an id of the list. */
  lemma MatchedByFront(regex: RegexMatcher, ids: seq<string>, c: Checklist)
    requires |ids| > 0 && MatchedBySome(regex, ids[..|ids| - 1], c)
    ensures MatchedBySome(regex, ids, c)
  {
    var init := ids[..|ids| - 1];
    var i :| 0 <= i < |init| && init[i] != "" && IsChecklistSelected(regex, init[i], c);
    assert ids[i] == init[i];
  }

  /** A chosen checklist was constructed and some non-empty active id matches it. */
  lemma {:induction false} SelectedMatched(ids: seq<string>, constructed: seq<Checklist>, regex: RegexMatcher)
    ensures forall k :: 0 <= k < |Selected(ids, constructed, regex)| ==>
      Selected(ids, constructed, regex)[k] in constructed
    ensures forall k :: 0 <= k < |Selected(ids, constructed, regex)| ==>
      MatchedBySome(regex, ids, Selected(ids, constructed, regex)[k])
  {
    if |ids| > 0 {
      var init := ids[..|ids| - 1];
      var id := ids[|ids| - 1];
      SelectedMatched(init, constructed, regex);
      RemainingUnmatched(init, constructed, regex);
      var prev := Selected(init, constructed, regex);
      var taken := if id == "" then [] else Seqs.Filter(Remaining(init, constructed, regex), SelectedBy(regex, id));
      var r := Selected(ids, constructed, regex);
      assert r == prev + taken;
      forall k | 0 <= k < |r|
        ensures r[k] in constructed && MatchedBySome(regex, ids, r[k])
      {
        if k < |prev| {
          assert r[k] == prev[k];
          MatchedByFront(regex, ids, r[k]);
        } else {
          var remaining := Remaining(init, constructed, regex);
          assert r[k] == taken[k - |prev|];
          assert r[k] in remaining && SelectedBy(regex, id)(r[k]);
          var m :| 0 <= m < |remaining| && remaining[m] == r[k];
          assert remaining[m] in constructed;
          assert IsChecklistSelected(regex, ids[|ids| - 1], r[k]);
        }
      }
    } else {
      assert Selected(ids, constructed, regex) == [];
    }
  }

  /** Selection only sorts the constructed checklists into chosen and left over; none is lost or repeated. */
  lemma {:induction false} SelectionPartitions(ids: seq<string>, constructed: seq<Checklist>, regex: RegexMatcher)
    ensures multiset(Selected(ids, constructed, regex)) + multiset(Remaining(ids, constructed, regex))
            == multiset(constructed)
  {
    if |ids| > 0 {
      var init := ids[..|ids| - 1];
      var id := ids[|ids| - 1];
      SelectionPartitions(init, constructed, regex);
      if id != "" {
        Seqs.FilterPartition(Remaining(init, constructed, regex), SelectedBy(regex, id), NotSelectedBy(regex, id));
      }
    }
  }

  /** `distinct` insertion order of a `LinkedHashSet` filled from a list. */
  function Distinct(ids: seq<string>): (r: seq<string>)
    ensures forall i, j :: 0 <= i < j < |r| ==> r[i] != r[j]
    ensures forall x :: x in r <==> x in ids
  {
    if |ids| == 0 then []
    else
      var prev := Distinct(ids[..|ids| - 1]);
      assert forall x :: x in ids <==> x in ids[..|ids| - 1] || x == ids[|ids| - 1];
      if ids[|ids| - 1] in prev then prev else prev + [ids[|ids| - 1]]
  }

  /**
   * The ids are held in the order they are first seen: the distinct ids of any prefix of the list come first, in
   * the same order.
   */
  lemma {:induction false} DistinctFirstSeen(ids: seq<string>, k: nat)
    requires k <= |ids|
    ensures Distinct(ids[..k]) <= Distinct(ids)
    decreases |ids|
  {
    if k < |ids| {
      var init := ids[..|ids| - 1];
      assert init[..k] == ids[..k];
      DistinctFirstSeen(init, k);
    } else {
      assert ids[..k] == ids;
    }
  }

  /** The checks of several checklists, in order, each under its prefixed name. */
  function ChecksOf(checklists: seq<Checklist>): seq<Spec> {
    if |checklists| == 0 then []
    else ChecksOf(checklists[..|checklists| - 1]) + checklists[|checklists| - 1].GetChecks()
  }

  /**
   * `applyOverrides` as written: `reduce(base, CheckSpec::overlay)` composes the base over each matching
   * override in turn, so the result takes the override's name and the base's configuration wins.
   */
  function ApplyOverridesAsWritten(overrides: seq<Spec>, base: Spec): Spec {
    if |overrides| == 0 then base
    else
      var acc := ApplyOverridesAsWritten(overrides[..|overrides| - 1], base);
      var o := overrides[|overrides| - 1];
      if base.IsOverriddenBy(o) then acc.Overlay(o) else acc
  }

  /**
   * `applyOverrides`, composing each matching override over the accumulated spec in list order. The base
   * keeps its name and template.
   */
  function ApplyOverrides(overrides: seq<Spec>, base: Spec): (r: Spec)
    ensures r.name == base.name && r.template == base.template
  {
    if |overrides| == 0 then base
    else
      var acc := ApplyOverrides(overrides[..|overrides| - 1], base);
      var o := overrides[|overrides| - 1];
      if base.IsOverriddenBy(o) then o.Overlay(acc) else acc
  }

  /** The overrides that match `base` and are skipped. */
  function SkipsBase(base: Spec): Spec -> bool {
    o => base.IsOverriddenBy(o) && o.skip
  }

  /** The overrides that match `base`. */
  function OverridesBase(base: Spec): Spec -> bool {
    o => base.IsOverriddenBy(o)
  }

  /** The result is skipped iff the base or some matching override is; without a match it is the base. */
  lemma {:induction false} ApplyOverridesSkip(overrides: seq<Spec>, base: Spec)
    ensures ApplyOverrides(overrides, base).skip <==> base.skip || Seqs.Any(overrides, SkipsBase(base))
    ensures !Seqs.Any(overrides, OverridesBase(base)) ==> ApplyOverrides(overrides, base) == base
  {
    if |overrides| > 0 {
      var init := overrides[..|overrides| - 1];
      ApplyOverridesSkip(init, base);
      Seqs.AnySnoc(overrides, SkipsBase(base));
      Seqs.AnySnoc(overrides, OverridesBase(base));
    }
  }

  /** Abstract overrides only adjust: the base keeps its implementation or inline script. */
  lemma {:induction false} ApplyOverridesKeepsImplementation(overrides: seq<Spec>, base: Spec)
    requires forall i :: 0 <= i < |overrides| && base.IsOverriddenBy(overrides[i]) ==> overrides[i].IsAbstract()
    ensures ApplyOverrides(overrides, base).impl == base.impl
    ensures ApplyOverrides(overrides, base).inlineScript == base.inlineScript
    ensures ApplyOverrides(overrides, base).inlineEngine == base.inlineEngine
  {
    if |overrides| > 0 {
      var init := overrides[..|overrides| - 1];
      assert forall i :: 0 <= i < |overrides| - 1 ==> init[i] == overrides[i];
      ApplyOverridesKeepsImplementation(init, base);
    }
  }

  /** A configuration key no matching override sets keeps the base's value. */
  lemma {:induction false} ApplyOverridesKeepsBaseConfig(overrides: seq<Spec>, base: Spec, k: string)
    requires base.config.Some? && k in base.config.value
    requires forall i :: 0 <= i < |overrides| && base.IsOverriddenBy(overrides[i]) && overrides[i].config.Some? ==>
      k !in overrides[i].config.value
    ensures ApplyOverrides(overrides, base).config.Some?
    ensures k in ApplyOverrides(overrides, base).config.value
    ensures ApplyOverrides(overrides, base).config.value[k] == base.config.value[k]
  {
    if |overrides| > 0 {
      var init := overrides[..|overrides| - 1];
      assert forall i :: 0 <= i < |overrides| - 1 ==> init[i] == overrides[i];
      ApplyOverridesKeepsBaseConfig(init, base, k);
    }
  }

  /** The last matching override's configuration keys win. */
  lemma LastOverrideConfigWins(overrides: seq<Spec>, base: Spec, k: string)
    requires |overrides| > 0
    requires base.IsOverriddenBy(overrides[|overrides| - 1])
    requires overrides[|overrides| - 1].config.Some? && k in overrides[|overrides| - 1].config.value
    ensures ApplyOverrides(overrides, base).config.Some?
    ensures ApplyOverrides(overrides, base).config.value[k] == overrides[|overrides| - 1].config.value[k]
  {
  }

  const FoundBase := Spec(Some("base_impl"), None, None, Some("alpha/foo"), None, false,
                          Some(map["shared" := JavaxJson.JString("zero")]))
  const FoundOverride := Spec(None, None, None, Some("foo"), None, false,
                              Some(map["shared" := JavaxJson.JString("two")]))

  /** Both specs of the finding are named. */
  lemma FoundSpecsNamed()
    ensures FoundOverride.NotUnnamed() && FoundBase.NotUnnamed()
  {
    NonBlankUnpadded(FoundOverride.name.value);
    NonBlankUnpadded(FoundBase.name.value);
  }

  /** A non-empty text without padding is not blank. */
  lemma NonBlankUnpadded(s: string)
    requires s != [] && JavaString.Unpadded(s)
    ensures JavaString.Trim(s) != ""
  {
    JavaString.TrimUntrimmed(s);
  }

  /** Neither spec of the finding inherits, and the override is abstract. */
  lemma FoundSpecsFlags()
    ensures !FoundOverride.MustInherit() && !FoundBase.MustInherit() && FoundOverride.IsAbstract()
  {
  }

  /** The check's name ends in "/" and the override's name. */
  lemma FoundNameEnds()
    ensures JavaString.EndsWith("alpha/foo", "/" + "foo")
  {
    assert "alpha/foo"[|"alpha/foo"| - |"/foo"|..] == "/foo";
  }

  lemma FoundOverrideMatches()
    ensures FoundBase.IsOverriddenBy(FoundOverride)
  {
    FoundSpecsNamed();
    FoundSpecsFlags();
    FoundNameEnds();
  }

  /**
   * As written, an abstract override "foo" of the check "alpha/foo" renames the check to "foo" and loses its
   * configuration value to the base; composed the intended way, the check keeps its name and takes the value.
   */
  lemma ApplyOverridesAsWrittenLosesOverride()
    ensures ApplyOverridesAsWritten([FoundOverride], FoundBase).name == Some("foo")
    ensures ApplyOverridesAsWritten([FoundOverride], FoundBase).config.value["shared"] == JavaxJson.JString("zero")
    ensures ApplyOverrides([FoundOverride], FoundBase).name == Some("alpha/foo")
    ensures ApplyOverrides([FoundOverride], FoundBase).config.value["shared"] == JavaxJson.JString("two")
  {
    FoundOverrideMatches();
    assert [FoundOverride][..0] == [];
    assert ApplyOverridesAsWritten([FoundOverride], FoundBase) == FoundBase.Overlay(FoundOverride);
    assert ApplyOverrides([FoundOverride], FoundBase) == FoundOverride.Overlay(FoundBase);
  }

  /**
   * The selected checks after overrides, skipped ones dropped and only the first spec of each name kept, in
   * order.
   */
  function Overlaid(specs: seq<Spec>): (r: seq<Spec>)
    ensures forall i, j :: 0 <= i < j < |r| ==> r[i].name != r[j].name
    ensures forall k :: 0 <= k < |r| ==> !r[k].skip
  {
    if |specs| == 0 then []
    else
      var prev := Overlaid(specs[..|specs| - 1]);
      var s := specs[|specs| - 1];
      if !s.skip && (forall k :: 0 <= k < |prev| ==> prev[k].name != s.name) then prev + [s] else prev
  }

  /** No unskipped spec before position `i` has the name of the spec at `i`. */
  predicate FirstOfName(specs: seq<Spec>, i: int)
    requires 0 <= i < |specs|
  {
    forall j :: 0 <= j < i ==> specs[j].skip || specs[j].name != specs[i].name
  }

  /** Some spec of `r` has the name. */
  predicate NameKept(r: seq<Spec>, name: Option<string>) {
    exists k :: 0 <= k < |r| && r[k].name == name
  }

  /** Every unskipped name is kept. */
  lemma {:induction false} OverlaidKeepsNames(specs: seq<Spec>)
    ensures forall i :: 0 <= i < |specs| && !specs[i].skip ==> NameKept(Overlaid(specs), specs[i].name)
  {
    if |specs| > 0 {
      var init := specs[..|specs| - 1];
      OverlaidKeepsNames(init);
      var prev := Overlaid(init);
      var r := Overlaid(specs);
      var last := |specs| - 1;
      assert r[..|prev|] == prev;
      forall i | 0 <= i < |specs| && !specs[i].skip
        ensures NameKept(r, specs[i].name)
      {
        if i < last {
          assert init[i] == specs[i];
          var k :| 0 <= k < |prev| && prev[k].name == specs[i].name;
          assert r[k] == prev[k];
        } else if |r| > |prev| {
          assert r[|prev|] == specs[last];
        } else {
          var k :| 0 <= k < |prev| && prev[k].name == specs[last].name;
          assert r[k] == prev[k];
        }
      }
    }
  }

  /** Each kept spec is the first unskipped spec of its name, and every unskipped name is kept. */
  lemma {:induction false} OverlaidFirstWins(specs: seq<Spec>)
    ensures forall k :: 0 <= k < |Overlaid(specs)| ==>
      exists i :: 0 <= i < |specs| && Overlaid(specs)[k] == specs[i] && FirstOfName(specs, i)
    ensures forall i :: 0 <= i < |specs| && !specs[i].skip ==> NameKept(Overlaid(specs), specs[i].name)
  {
    OverlaidKeepsNames(specs);
    if |specs| > 0 {
      var init := specs[..|specs| - 1];
      OverlaidFirstWins(init);
      OverlaidKeepsNames(init);
      var prev := Overlaid(init);
      var r := Overlaid(specs);
      var last := |specs| - 1;
      forall k | 0 <= k < |r|
        ensures exists i :: 0 <= i < |specs| && r[k] == specs[i] && FirstOfName(specs, i)
      {
        if k < |prev| {
          assert r[k] == prev[k];
          var i :| 0 <= i < |init| && prev[k] == init[i] && FirstOfName(init, i);
          assert forall j :: 0 <= j <= i ==> specs[j] == init[j];
          assert FirstOfName(specs, i);
        } else {
          assert r == prev + [specs[last]];
          forall j | 0 <= j < last && !specs[j].skip
            ensures specs[j].name != specs[last].name
          {
            assert init[j] == specs[j];
            var m :| 0 <= m < |prev| && prev[m].name == init[j].name;
          }
          assert FirstOfName(specs, last);
        }
      }
    } else {
      assert Overlaid(specs) == [];
    }
  }

  /**
   * What an override contributes on its own: nothing when it is skipped or already overrides a selected
   * spec; otherwise the override composed over the first inactive check it overrides (unless that composite
   * is skipped), then over the first check it inherits from, kept only when it ends with an implementation.
   */
  function ExtraFor(spec: Spec, overlaid: seq<Spec>, inactiveChecks: seq<Spec>, allChecks: seq<Spec>): (r: Option<Spec>)
    ensures spec.skip ==> r.None?
    ensures (exists k :: 0 <= k < |overlaid| && spec.Overrides(overlaid[k])) ==> r.None?
    ensures r.Some? ==> r.value.impl.Some? && !r.value.skip
  {
    if spec.skip || exists k :: 0 <= k < |overlaid| && spec.Overrides(overlaid[k]) then None
    else
      var firstBase := Seqs.FindFirst(inactiveChecks, b => spec.Overrides(b));
      var merged := if firstBase.Some? && !spec.Overlay(firstBase.value).skip then spec.Overlay(firstBase.value)
                    else spec;
      var extended :=
        if merged.MustInherit() then
          (match Seqs.FindFirst(allChecks, t => merged.Inherits(t))
           case Some(t) => merged.Inherit(t)
           case None => merged)
        else merged;
      if extended.impl.Some? then Some(extended) else None
  }

  function Extras(overrides: seq<Spec>, overlaid: seq<Spec>, inactiveChecks: seq<Spec>, allChecks: seq<Spec>)
    : (r: seq<Spec>)
    ensures forall k :: 0 <= k < |r| ==> r[k].impl.Some? && !r[k].skip
  {
    if |overrides| == 0 then []
    else
      Extras(overrides[..|overrides| - 1], overlaid, inactiveChecks, allChecks) +
      (match ExtraFor(overrides[|overrides| - 1], overlaid, inactiveChecks, allChecks)
       case Some(s) => [s]
       case None => [])
  }

  /** The extras of one more override are those of the ones before, then what it contributes. */
  lemma ExtrasSnoc(overrides: seq<Spec>, j: nat, overlaid: seq<Spec>, inactiveChecks: seq<Spec>, allChecks: seq<Spec>)
    requires j < |overrides|
    ensures Extras(overrides[..j + 1], overlaid, inactiveChecks, allChecks) ==
      Extras(overrides[..j], overlaid, inactiveChecks, allChecks) +
      (match ExtraFor(overrides[j], overlaid, inactiveChecks, allChecks) case Some(s) => [s] case None => [])
  {
    assert overrides[..j + 1][..j] == overrides[..j];
  }

  /** Every override applied to every base check, in order. */
  function OverriddenChecks(overrides: seq<Spec>, checks: seq<Spec>): (r: seq<Spec>)
    ensures |r| == |checks| && forall i :: 0 <= i < |checks| ==> r[i] == ApplyOverrides(overrides, checks[i])
  {
    seq(|checks|, i requires 0 <= i < |checks| => ApplyOverrides(overrides, checks[i]))
  }

  /** The effective check specs: the overlaid selected checks, then the extras from the overrides. */
  function EffectiveCheckSpecs(selectedChecks: seq<Spec>, inactiveChecks: seq<Spec>, allChecks: seq<Spec>,
                               overrides: seq<Spec>): (r: seq<Spec>)
    ensures forall k :: 0 <= k < |r| ==> !r[k].skip
  {
    var overlaid := Overlaid(OverriddenChecks(overrides, selectedChecks));
    overlaid + Extras(overrides, overlaid, inactiveChecks, allChecks)
  }

  /** The selected checks keep one effective spec per name: the first of that name after overrides. */
  lemma EffectiveSelectedChecks(selectedChecks: seq<Spec>, inactiveChecks: seq<Spec>, allChecks: seq<Spec>,
                                overrides: seq<Spec>)
    ensures var r := EffectiveCheckSpecs(selectedChecks, inactiveChecks, allChecks, overrides);
      var n := |Overlaid(OverriddenChecks(overrides, selectedChecks))|;
      n <= |r| &&
      (forall i, j :: 0 <= i < j < n ==> r[i].name != r[j].name) &&
      (forall k :: 0 <= k < n ==>
         exists i :: 0 <= i < |selectedChecks| && r[k] == ApplyOverrides(overrides, selectedChecks[i])) &&
      (forall k :: n <= k < |r| ==> r[k].impl.Some?)
  {
    var overlaid := Overlaid(OverriddenChecks(overrides, selectedChecks));
    var extras := Extras(overrides, overlaid, inactiveChecks, allChecks);
    assert EffectiveCheckSpecs(selectedChecks, inactiveChecks, allChecks, overrides) == overlaid + extras;
    OverlaidFromSelected(selectedChecks, overrides);
  }

  /** Each overlaid spec is some selected check with the overrides applied. */
  lemma OverlaidFromSelected(selectedChecks: seq<Spec>, overrides: seq<Spec>)
    ensures var overlaid := Overlaid(OverriddenChecks(overrides, selectedChecks));
      forall k :: 0 <= k < |overlaid| ==>
        exists i :: 0 <= i < |selectedChecks| && overlaid[k] == ApplyOverrides(overrides, selectedChecks[i])
  {
    var specs := OverriddenChecks(overrides, selectedChecks);
    var overlaid := Overlaid(specs);
    OverlaidFirstWins(specs);
    forall k | 0 <= k < |overlaid|
      ensures exists i :: 0 <= i < |selectedChecks| && overlaid[k] == ApplyOverrides(overrides, selectedChecks[i])
    {
      var i :| 0 <= i < |specs| && overlaid[k] == specs[i] && FirstOfName(specs, i);
      assert overlaid[k] == ApplyOverrides(overrides, selectedChecks[i]);
    }
  }

  /** The first loop of `getEffectiveCheckSpecs`: the first unskipped spec of each name, in order. */
  method OverlayLoop(mapped: seq<Spec>) returns (overlaid: seq<Spec>)
    ensures overlaid == Overlaid(mapped)
  {
    overlaid := [];
    var i := 0;
    while i < |mapped|
      invariant 0 <= i <= |mapped|
      invariant overlaid == Overlaid(mapped[..i])
    {
      assert mapped[..i + 1][..i] == mapped[..i];
      var checkSpec := mapped[i];
      if !checkSpec.skip && (forall k :: 0 <= k < |overlaid| ==> overlaid[k].name != checkSpec.name) {
        overlaid := overlaid + [checkSpec];
      }
      i := i + 1;
    }
    assert mapped[..|mapped|] == mapped;
  }

  /** The second loop of `getEffectiveCheckSpecs`: each override that contributes on its own is appended. */
  method ExtrasLoop(overrides: seq<Spec>, overlaid: seq<Spec>, inactiveChecks: seq<Spec>, allChecks: seq<Spec>)
    returns (toReturn: seq<Spec>)
    ensures toReturn == overlaid + Extras(overrides, overlaid, inactiveChecks, allChecks)
  {
    toReturn := overlaid;
    var j := 0;
    while j < |overrides|
      invariant 0 <= j <= |overrides|
      invariant toReturn == overlaid + Extras(overrides[..j], overlaid, inactiveChecks, allChecks)
    {
      ExtrasSnoc(overrides, j, overlaid, inactiveChecks, allChecks);
      var extra := ExtraFor(overrides[j], overlaid, inactiveChecks, allChecks);
      if extra.Some? {
        toReturn := toReturn + [extra.value];
      }
      j := j + 1;
    }
    assert overrides[..|overrides|] == overrides;
  }

  /** The loop of `selectChecklists`: each non-empty active id takes the remaining candidates it matches. */
  method SelectionLoop(ids: seq<string>, constructed: seq<Checklist>, regex: RegexMatcher)
    returns (selected: seq<Checklist>, candidates: seq<Checklist>)
    ensures selected == Selected(ids, constructed, regex)
    ensures candidates == Remaining(ids, constructed, regex)
  {
    selected := [];
    candidates := constructed;
    var i := 0;
    while i < |ids|
      invariant 0 <= i <= |ids|
      invariant candidates == Remaining(ids[..i], constructed, regex)
      invariant selected == Selected(ids[..i], constructed, regex)
    {
      var activeId := ids[i];
      ghost var next := ids[..i + 1];
      assert next[..|next| - 1] == ids[..i] && next[|next| - 1] == activeId;
      if activeId != "" {
        selected := selected + Seqs.Filter(candidates, SelectedBy(regex, activeId));
        candidates := Seqs.Filter(candidates, NotSelectedBy(regex, activeId));
      }
      i := i + 1;
    }
    assert ids[..|ids|] == ids;
  }

  class ChecklistPlanner {
    const activeChecklistIds: seq<string>
    var checklists: seq<Checklist>
    var inactiveChecklists: seq<Checklist>

    constructor (activeIds: seq<string>)
      ensures activeChecklistIds == Distinct(activeIds)
      ensures checklists == [] && inactiveChecklists == []
    {
      activeChecklistIds := Distinct(activeIds);
      checklists, inactiveChecklists := [], [];
    }

    /**
     * `selectChecklists`: each active id in turn moves the candidates it matches into the selected
     * checklists; what is left over becomes inactive.
     */
    method SelectChecklists(constructed: seq<Checklist>, regex: RegexMatcher)
      modifies this
      ensures checklists == old(checklists) + Selected(activeChecklistIds, constructed, regex)
      ensures inactiveChecklists == old(inactiveChecklists) + Remaining(activeChecklistIds, constructed, regex)
    {
      var selected, candidates := SelectionLoop(activeChecklistIds, constructed, regex);
      checklists := checklists + selected;
      inactiveChecklists := inactiveChecklists + candidates;
    }

    /**
     * `getEffectiveCheckSpecs`: the overlaid map is filled from the selected checks after overrides, then each
     * override that contributes on its own is appended.
     */
    method GetEffectiveCheckSpecs(checkOverrides: Option<seq<Spec>>) returns (toReturn: seq<Spec>)
      ensures toReturn == EffectiveCheckSpecs(ChecksOf(checklists), ChecksOf(inactiveChecklists),
                                              ChecksOf(checklists + inactiveChecklists), checkOverrides.GetOrElse([]))
    {
      var overrides := checkOverrides.GetOrElse([]);
      var overlaid := OverlayLoop(OverriddenChecks(overrides, ChecksOf(checklists)));
      toReturn := ExtrasLoop(overrides, overlaid, ChecksOf(inactiveChecklists), ChecksOf(checklists + inactiveChecklists));
    }
  }
}
