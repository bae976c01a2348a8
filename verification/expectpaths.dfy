/**
 * The ExpectPaths check: after each package that the package id rules select is extracted, every expected
 * path that is missing and every unexpected path that is present is charged to the package; at the end of the
 * scan one MAJOR violation is reported per path that was charged to some package.
 */
module ExpectPaths {
  import opened Violations
  import opened ViolatorMaps
  import Rules

  /** The paths `afterExtract` charges when `itemExists` answers for the session: those that are missing. */
  function Missing(itemExists: string -> bool): string -> bool {
    p => !itemExists(p)
  }

  /** How `finishedScan` describes an expected path that was missing. */
  function MissingPath(path: string): string {
    "expected path missing: " + path
  }

  /** How `finishedScan` describes an unexpected path that was present. */
  function PresentPath(path: string): string {
    "unexpected path present: " + path
  }

  /** The check's state; `reported` is the list of violations a simple progress check collects. */
  class Check {
    const expectedPaths: seq<string>
    const notExpectedPaths: seq<string>
    const afterPackageIdRules: seq<Rules.Rule>
    /** Evaluates the rules' regular expressions. */
    const regex: Rules.RegexMatcher
    var expectedViolators: ViolatorMap<string>
    var notExpectedViolators: ViolatorMap<string>
    var reported: seq<Violation>

    ghost predicate Valid()
      reads this
    {
      expectedViolators.Valid() && notExpectedViolators.Valid()
    }

    constructor (expectedPaths: seq<string>, notExpectedPaths: seq<string>,
                 afterPackageIdRules: seq<Rules.Rule>, regex: Rules.RegexMatcher)
      ensures this.expectedPaths == expectedPaths && this.notExpectedPaths == notExpectedPaths
      ensures this.afterPackageIdRules == afterPackageIdRules && this.regex == regex
      ensures expectedViolators == EmptyMap() && notExpectedViolators == EmptyMap() && reported == []
      ensures Valid()
    {
      this.expectedPaths := expectedPaths;
      this.notExpectedPaths := notExpectedPaths;
      this.afterPackageIdRules := afterPackageIdRules;
      this.regex := regex;
      expectedViolators := EmptyMap();
      notExpectedViolators := EmptyMap();
      reported := [];
    }

    /** `startedScan`: the collected violations and both violator maps are cleared. */
    method StartedScan()
      modifies this
      ensures expectedViolators == EmptyMap() && notExpectedViolators == EmptyMap() && reported == []
      ensures Valid()
    {
      reported := [];
      expectedViolators := EmptyMap();
      notExpectedViolators := EmptyMap();
    }

    /**
     * `shouldExpectAfterExtract`: the two-argument last match of the package id rules is include-like. A
     * package some rule matches is expected exactly when the last rule matching it includes; a package no
     * rule matches is expected unless the first rule includes.
     */
    predicate ShouldExpectAfterExtract(id: PackageId): (r: bool)
      ensures (exists i :: 0 <= i < |afterPackageIdRules| && afterPackageIdRules[i].Matches(regex, id)) ==>
        (r <==> exists k :: 0 <= k < |afterPackageIdRules| && afterPackageIdRules[k].Matches(regex, id) &&
                            afterPackageIdRules[k].IsInclude() &&
                            forall j :: k < j < |afterPackageIdRules| ==> !afterPackageIdRules[j].Matches(regex, id))
      ensures (forall i :: 0 <= i < |afterPackageIdRules| ==> !afterPackageIdRules[i].Matches(regex, id)) ==>
        (r <==> |afterPackageIdRules| == 0 || !afterPackageIdRules[0].IsInclude())
    {
      Rules.LastMatchFuzzy(afterPackageIdRules, regex, id).IsInclude()
    }

    /**
     * `afterExtract`, where `itemExists` answers for the inspection session: a selected package is charged to
     * every expected path that is missing and to every unexpected path that is present.
     */
    method AfterExtract(id: PackageId, itemExists: string -> bool)
      requires Valid()
      modifies this
      ensures Valid() && reported == old(reported)
      ensures expectedViolators ==
        if ShouldExpectAfterExtract(id) then ChargeAll(old(expectedViolators), expectedPaths, Missing(itemExists), id)
        else old(expectedViolators)
      ensures notExpectedViolators ==
        if ShouldExpectAfterExtract(id) then ChargeAll(old(notExpectedViolators), notExpectedPaths, itemExists, id)
        else old(notExpectedViolators)
    {
      if ShouldExpectAfterExtract(id) {
        for k := 0 to |expectedPaths|
          invariant expectedViolators == ChargeAll(old(expectedViolators), expectedPaths[..k], Missing(itemExists), id)
          invariant notExpectedViolators == old(notExpectedViolators) && reported == old(reported)
        {
          assert expectedPaths[..k + 1][..k] == expectedPaths[..k];
          var path := expectedPaths[k];
          if !itemExists(path) {
            var (withList, list) := GetViolatorList(expectedViolators, path);
            expectedViolators := withList.(lists := withList.lists[path := list + [id]]);
          }
        }
        assert expectedPaths[..|expectedPaths|] == expectedPaths;
        for k := 0 to |notExpectedPaths|
          invariant notExpectedViolators == ChargeAll(old(notExpectedViolators), notExpectedPaths[..k], itemExists, id)
          invariant expectedViolators == ChargeAll(old(expectedViolators), expectedPaths, Missing(itemExists), id)
          invariant reported == old(reported)
        {
          assert notExpectedPaths[..k + 1][..k] == notExpectedPaths[..k];
          var path := notExpectedPaths[k];
          if itemExists(path) {
            var (withList, list) := GetViolatorList(notExpectedViolators, path);
            notExpectedViolators := withList.(lists := withList.lists[path := list + [id]]);
          }
        }
        assert notExpectedPaths[..|notExpectedPaths|] == notExpectedPaths;
        ChargeAllKeys(old(expectedViolators), expectedPaths, Missing(itemExists), id);
        ChargeAllKeys(old(notExpectedViolators), notExpectedPaths, itemExists, id);
      }
    }

    /** One loop of `finishedScan`: a MAJOR violation for each path of `m` with packages, in key order. */
    method ReportCharged(m: ViolatorMap<string>, describe: string -> string)
      modifies this
      ensures reported == old(reported) + Reports(m, describe)
      ensures expectedViolators == old(expectedViolators) && notExpectedViolators == old(notExpectedViolators)
    {
      for k := 0 to |m.keys|
        invariant reported == old(reported) + ReportsFor(m.keys[..k], m, describe)
        invariant expectedViolators == old(expectedViolators) && notExpectedViolators == old(notExpectedViolators)
      {
        assert m.keys[..k + 1][..k] == m.keys[..k];
        var path := m.keys[k];
        if m.Get(path) != [] {
          reported := reported + [Violation(Major, describe(path), m.Get(path))];
        }
      }
      assert m.keys[..|m.keys|] == m.keys;
    }

    /**
     * `finishedScan`: one MAJOR violation per missing expected path, in the order the paths were first
     * charged, then one per unexpected path present; both maps are cleared.
     */
    method FinishedScan()
      modifies this
      ensures reported == old(reported) + Reports(old(expectedViolators), MissingPath) +
                          Reports(old(notExpectedViolators), PresentPath)
      ensures expectedViolators == EmptyMap() && notExpectedViolators == EmptyMap() && Valid()
    {
      ReportCharged(expectedViolators, MissingPath);
      expectedViolators := EmptyMap();
      ReportCharged(notExpectedViolators, PresentPath);
      notExpectedViolators := EmptyMap();
    }
  }

  /**
   * Over one `afterExtract`: a package the rules leave out charges nothing, and a selected package is charged
   * to a missing expected path once per listing and never to a present one.
   */
  lemma AfterExtractCharges(m: ViolatorMap<string>, expectedPaths: seq<string>, selected: bool, id: PackageId,
                            itemExists: string -> bool, path: string)
    ensures var r := if selected then ChargeAll(m, expectedPaths, Missing(itemExists), id) else m;
      r.Get(path) == m.Get(path) + (if selected && !itemExists(path) then Repeat(id, Count(expectedPaths, path)) else [])
  {
    ChargeAllLists(m, expectedPaths, Missing(itemExists), id, path);
  }

  /** A path that exists after a package is extracted is not reported missing on that package's account. */
  lemma PresentPathNeverMissing(m: ViolatorMap<string>, expectedPaths: seq<string>, id: PackageId,
                                itemExists: string -> bool, path: string)
    requires m.Get(path) == [] && itemExists(path)
    ensures var r := ChargeAll(m, expectedPaths, Missing(itemExists), id);
      forall v :: v in Reports(r, MissingPath) ==> v.description != MissingPath(path)
  {
    var r := ChargeAll(m, expectedPaths, Missing(itemExists), id);
    ChargeAllLists(m, expectedPaths, Missing(itemExists), id, path);
    forall v | v in Reports(r, MissingPath)
      ensures v.description != MissingPath(path)
    {
      ReportsExactly(r, MissingPath, v);
      var q :| q in r.keys && r.Get(q) != [] && v == Violation(Major, MissingPath(q), r.Get(q));
      assert MissingPath(q)[23..] == q;
      assert MissingPath(path)[23..] == path;
    }
  }
}
