/**
 * Installation of node type definitions (CND files) by URL. The unordered CNDs are registered in up to five
 * passes, each pass retrying the ones that failed before because a definition may depend on one registered
 * later; only the failures of the last pass are reported. The post-install CNDs are then registered once each,
 * in order, every failure reported.
 */
module CndUrlInstallers {
  import opened Wrappers
  import opened JavaResult

  type Url = string

  /** `MAX_ITERATIONS` */
  const MaxIterations: nat := 5

  /** A call of the error listener's `onNodeTypeRegistrationError`. */
  datatype RegistrationError = RegistrationError(error: Exception, url: Url)

  /**
   * What registering one CND leaves: the repository's node types and namespaces afterwards, and the error the
   * importer threw, if any. A failed registration keeps whatever it registered before it threw.
   */
  datatype Registration<S> = Registration(repo: S, error: Option<Exception>)

  /** Registering one CND into the repository; `S` is the state of the repository's node types and namespaces. */
  type Attempt<!S> = (S, Url) -> Registration<S>

  /** The repository state and the errors reported so far. */
  datatype Progress<S> = Progress(repo: S, reported: seq<RegistrationError>)

  /** After one pass: the progress and the CNDs that failed to register, in order. */
  datatype PassResult<S> = PassResult(progress: Progress<S>, remaining: seq<Url>)

  /**
   * One CND tried after the ones before it: the repository is what the attempt left, whether or not it
   * failed; a CND that fails is kept and, when `logErrors`, reported with its error.
   */
  function TryOne<S>(attempt: Attempt<S>, before: PassResult<S>, url: Url, logErrors: bool): (r: PassResult<S>)
    ensures r.progress.repo == attempt(before.progress.repo, url).repo
    ensures attempt(before.progress.repo, url).error.None? ==>
      r.remaining == before.remaining && r.progress.reported == before.progress.reported
    ensures attempt(before.progress.repo, url).error.Some? ==>
      r.remaining == before.remaining + [url] &&
      r.progress.reported == before.progress.reported +
        (if logErrors then [RegistrationError(attempt(before.progress.repo, url).error.value, url)] else [])
  {
    var q := before.progress;
    var a := attempt(q.repo, url);
    match a.error
    case None => PassResult(q.(repo := a.repo), before.remaining)
    case Some(e) =>
      PassResult(Progress(a.repo, q.reported + (if logErrors then [RegistrationError(e, url)] else [])),
                 before.remaining + [url])
  }

  /** The errors reported for some CNDs. */
  predicate ReportsExactly(reported: seq<RegistrationError>, urls: seq<Url>) {
    |reported| == |urls| && forall i :: 0 <= i < |urls| ==> reported[i].url == urls[i]
  }

  /**
   * A pass from `p` over `urls` kept some of them, kept `p`'s reports and, when `logErrors`, added one report per
   * CND kept, in order, and otherwise none.
   */
  predicate Extends<S>(r: PassResult<S>, p: Progress<S>, urls: seq<Url>, logErrors: bool) {
    multiset(r.remaining) <= multiset(urls) &&
    |r.progress.reported| >= |p.reported| && r.progress.reported[..|p.reported|] == p.reported &&
    (logErrors ==> ReportsExactly(r.progress.reported[|p.reported|..], r.remaining)) &&
    (!logErrors ==> r.progress.reported == p.reported)
  }

  /** Trying one more CND keeps what the pass so far has done and reports at most that CND. */
  lemma TryOneExtends<S>(attempt: Attempt<S>, p: Progress<S>, before: PassResult<S>, urls: seq<Url>, url: Url,
                         logErrors: bool)
    requires Extends(before, p, urls, logErrors)
    ensures Extends(TryOne(attempt, before, url, logErrors), p, urls + [url], logErrors)
  {
    assert multiset(urls + [url]) == multiset(urls) + multiset{url};
    var a := attempt(before.progress.repo, url);
    match a.error
    case None =>
      RegisteredExtends(p, before, urls, url, a.repo, logErrors);
    case Some(e) =>
      KeptExtends(p, before, urls, url, a.repo, e, logErrors);
  }

  /** A CND that registers changes the repository and nothing else. */
  lemma RegisteredExtends<S>(p: Progress<S>, before: PassResult<S>, urls: seq<Url>, url: Url, repo: S,
                             logErrors: bool)
    requires Extends(before, p, urls, logErrors)
    requires multiset(urls + [url]) == multiset(urls) + multiset{url}
    ensures Extends(PassResult(before.progress.(repo := repo), before.remaining), p, urls + [url], logErrors)
  {
  }

  /** A CND that fails is kept and, when logging, reported after the earlier reports. */
  lemma KeptExtends<S>(p: Progress<S>, before: PassResult<S>, urls: seq<Url>, url: Url, repo: S, e: Exception,
                       logErrors: bool)
    requires Extends(before, p, urls, logErrors)
    requires multiset(urls + [url]) == multiset(urls) + multiset{url}
    ensures var q := before.progress;
      Extends(PassResult(Progress(repo, q.reported + (if logErrors then [RegistrationError(e, url)] else [])),
                         before.remaining + [url]), p, urls + [url], logErrors)
  {
    var q := before.progress;
    assert multiset(before.remaining + [url]) == multiset(before.remaining) + multiset{url};
    if logErrors {
      var err := RegistrationError(e, url);
      var reported := q.reported + [err];
      assert reported[..|p.reported|] == q.reported[..|p.reported|];
      assert reported[|p.reported|..] == q.reported[|p.reported|..] + [err];
      ReportsSnoc(q.reported[|p.reported|..], before.remaining, err);
    } else {
      assert q.reported + [] == q.reported;
    }
  }

  /** One more report for one more CND. */
  lemma ReportsSnoc(reported: seq<RegistrationError>, urls: seq<Url>, err: RegistrationError)
    requires ReportsExactly(reported, urls)
    ensures ReportsExactly(reported + [err], urls + [err.url])
  {
  }

  /**
   * `tryRegisterNodeTypes`: each CND tried in order. A pass keeps some of the CNDs it tried; a logged pass
   * reports exactly the ones it keeps, in order, and a silent pass reports nothing.
   */
  function Pass<S>(attempt: Attempt<S>, p: Progress<S>, urls: seq<Url>, logErrors: bool): (r: PassResult<S>)
    ensures Extends(r, p, urls, logErrors)
  {
    if |urls| == 0 then PassResult(p, [])
    else
      var init := urls[..|urls| - 1];
      var before := Pass(attempt, p, init, logErrors);
      assert urls == init + [urls[|urls| - 1]];
      TryOneExtends(attempt, p, before, init, urls[|urls| - 1], logErrors);
      TryOne(attempt, before, urls[|urls| - 1], logErrors)
  }

  /** After registering: the progress, the CNDs never registered, and the number of passes run. */
  datatype Finish<S> = Finish(progress: Progress<S>, remaining: seq<Url>, passes: nat)

  /** `registerNodeTypes` from pass `iteration + 1` on: passes until none remain or five have run. */
  function RegisterFrom<S>(attempt: Attempt<S>, p: Progress<S>, remaining: seq<Url>, iteration: nat): Finish<S>
    requires iteration <= MaxIterations
    decreases MaxIterations - iteration
  {
    if |remaining| == 0 || iteration == MaxIterations then Finish(p, remaining, iteration)
    else
      var pass := Pass(attempt, p, remaining, iteration + 1 == MaxIterations);
      RegisterFrom(attempt, pass.progress, pass.remaining, iteration + 1)
  }

  /**
   * At most five passes run, and fewer only when every CND registered; the CNDs left are some of those given,
   * and exactly they are reported, in order, by the last pass, nothing being reported before it.
   */
  lemma {:induction false} RegisterFromProperties<S>(attempt: Attempt<S>, p: Progress<S>, remaining: seq<Url>,
                                                     iteration: nat)
    requires iteration <= MaxIterations
    requires iteration == MaxIterations ==> remaining == []
    ensures var r := RegisterFrom(attempt, p, remaining, iteration);
      iteration <= r.passes <= MaxIterations && (r.passes < MaxIterations ==> r.remaining == []) &&
      multiset(r.remaining) <= multiset(remaining)
    ensures var r := RegisterFrom(attempt, p, remaining, iteration);
      |r.progress.reported| >= |p.reported| && r.progress.reported[..|p.reported|] == p.reported &&
      ReportsExactly(r.progress.reported[|p.reported|..], r.remaining)
    decreases MaxIterations - iteration
  {
    var r := RegisterFrom(attempt, p, remaining, iteration);
    if |remaining| > 0 {
      var logErrors := iteration + 1 == MaxIterations;
      var pass := Pass(attempt, p, remaining, logErrors);
      if logErrors {
        assert r == Finish(pass.progress, pass.remaining, MaxIterations);
      } else {
        assert pass.progress.reported == p.reported;
        RegisterFromProperties(attempt, pass.progress, pass.remaining, iteration + 1);
      }
    }
  }

  /** When every CND registers whatever is registered already, one pass registers them all and nothing is reported. */
  lemma AllRegisterInOnePass<S>(attempt: Attempt<S>, p: Progress<S>, urls: seq<Url>)
    requires forall s: S, u: Url :: attempt(s, u).error.None?
    ensures var r := RegisterFrom(attempt, p, urls, 0);
      r.remaining == [] && r.progress.reported == p.reported && r.passes <= 1
  {
    if |urls| > 0 {
      NoFailureNoneRemain(attempt, p, urls, false);
    }
  }

  lemma {:induction false} NoFailureNoneRemain<S>(attempt: Attempt<S>, p: Progress<S>, urls: seq<Url>, logErrors: bool)
    requires forall s: S, u: Url :: attempt(s, u).error.None?
    ensures Pass(attempt, p, urls, logErrors).remaining == []
  {
    if |urls| > 0 {
      NoFailureNoneRemain(attempt, p, urls[..|urls| - 1], logErrors);
    }
  }

  /** `registerNodeTypesByUrl`: one attempt per CND, in order, every failure reported. */
  function ByUrl<S>(attempt: Attempt<S>, p: Progress<S>, urls: seq<Url>): Progress<S> {
    if |urls| == 0 then p
    else
      var q := ByUrl(attempt, p, urls[..|urls| - 1]);
      var url := urls[|urls| - 1];
      var a := attempt(q.repo, url);
      match a.error
      case None => q.(repo := a.repo)
      case Some(e) => Progress(a.repo, q.reported + [RegistrationError(e, url)])
  }

  /** Registering by URL is a single pass that reports its failures: it reports exactly the CNDs that fail. */
  lemma {:induction false} ByUrlIsOneLoggedPass<S>(attempt: Attempt<S>, p: Progress<S>, urls: seq<Url>)
    ensures ByUrl(attempt, p, urls) == Pass(attempt, p, urls, true).progress
    ensures var r := ByUrl(attempt, p, urls);
      |r.reported| >= |p.reported| && r.reported[..|p.reported|] == p.reported &&
      ReportsExactly(r.reported[|p.reported|..], Pass(attempt, p, urls, true).remaining)
  {
    if |urls| > 0 {
      ByUrlIsOneLoggedPass(attempt, p, urls[..|urls| - 1]);
    }
  }

  /** The installer of a scan: its CNDs, the repository it registers into, and what its error listener heard. */
  class CndUrlInstaller<S> {
    const unorderedCnds: seq<Url>
    const postInstallCnds: seq<Url>
    var repo: S
    var reported: seq<RegistrationError>

    /** A missing post-install list is empty. */
    constructor (unordered: seq<Url>, postInstall: Option<seq<Url>>, repo: S)
      ensures unorderedCnds == unordered && this.repo == repo && reported == []
      ensures postInstallCnds == (if postInstall.Some? then postInstall.value else [])
    {
      unorderedCnds := unordered;
      postInstallCnds := if postInstall.Some? then postInstall.value else [];
      this.repo := repo;
      reported := [];
    }

    /** `register(session)`: the unordered CNDs with retries, then the post-install CNDs one by one. */
    method Register(attempt: Attempt<S>)
      modifies this
      ensures Progress(repo, reported) ==
        ByUrl(attempt, RegisterFrom(attempt, Progress(old(repo), old(reported)), unorderedCnds, 0).progress,
              postInstallCnds)
    {
      RegisterNodeTypes(attempt, unorderedCnds);
      RegisterNodeTypesByUrl(attempt, postInstallCnds);
    }

    /** `registerNodeTypes`: passes over the CNDs not registered yet, the fifth one reporting its failures. */
    method RegisterNodeTypes(attempt: Attempt<S>, nodeTypeResources: seq<Url>)
      modifies this
      ensures Progress(repo, reported) ==
        RegisterFrom(attempt, Progress(old(repo), old(reported)), nodeTypeResources, 0).progress
    {
      var remaining := nodeTypeResources;
      var iteration := 0;
      while |remaining| > 0
        invariant iteration <= MaxIterations
        invariant RegisterFrom(attempt, Progress(repo, reported), remaining, iteration) ==
          RegisterFrom(attempt, Progress(old(repo), old(reported)), nodeTypeResources, 0)
        decreases MaxIterations - iteration
      {
        iteration := iteration + 1;
        if iteration > MaxIterations {
          break;
        } else if iteration == MaxIterations {
          remaining := TryRegisterNodeTypes(attempt, remaining, true);
        } else {
          remaining := TryRegisterNodeTypes(attempt, remaining, false);
        }
      }
    }

    /**
     * `tryRegisterNodeTypes`: walks the list with an iterator, removing each CND that registers and reporting
     * each failure when `logErrors`.
     */
    method TryRegisterNodeTypes(attempt: Attempt<S>, nodeTypeResources: seq<Url>, logErrors: bool)
      returns (list: seq<Url>)
      modifies this
      ensures var pass := Pass(attempt, Progress(old(repo), old(reported)), nodeTypeResources, logErrors);
        Progress(repo, reported) == pass.progress && list == pass.remaining
    {
      ghost var start := Progress(repo, reported);
      list := nodeTypeResources;
      var i := 0;
      ghost var k := 0;
      ghost var done := PassResult(start, []);
      while i < |list|
        invariant 0 <= k <= |nodeTypeResources| && done == Pass(attempt, start, nodeTypeResources[..k], logErrors)
        invariant Progress(repo, reported) == done.progress && i == |done.remaining|
        invariant list == done.remaining + nodeTypeResources[k..]
        decreases |list| - i
      {
        assert nodeTypeResources[..k + 1][..k] == nodeTypeResources[..k];
        assert list[..i] == done.remaining;
        assert list[i] == nodeTypeResources[k];
        assert list[i + 1..] == nodeTypeResources[k + 1..];
        list, i := TryAt(attempt, list, i, logErrors);
        done := TryOne(attempt, done, nodeTypeResources[k], logErrors);
        k := k + 1;
      }
      assert nodeTypeResources[k..] == [];
      assert nodeTypeResources[..k] == nodeTypeResources;
    }

    /**
     * One step of the iterator in `tryRegisterNodeTypes`: the CND at `i` is removed from the list when it
     * registers, and otherwise kept, stepped over and, when `logErrors`, reported.
     */
    method TryAt(attempt: Attempt<S>, list: seq<Url>, i: nat, logErrors: bool) returns (list': seq<Url>, i': nat)
      requires i < |list|
      modifies `repo, `reported
      ensures var after := TryOne(attempt, PassResult(Progress(old(repo), old(reported)), list[..i]), list[i], logErrors);
        Progress(repo, reported) == after.progress && list' == after.remaining + list[i + 1..] &&
        i' == |after.remaining|
    {
      var namedResource := list[i];
      var registered := attempt(repo, namedResource);
      repo := registered.repo;
      if registered.error.None? {
        list', i' := list[..i] + list[i + 1..], i;
      } else {
        if logErrors {
          reported := reported + [RegistrationError(registered.error.value, namedResource)];
        } else {
          assert reported + [] == reported;
        }
        assert list == list[..i] + [namedResource] + list[i + 1..];
        list', i' := list, i + 1;
      }
    }

    /** `registerNodeTypesByUrl` */
    method RegisterNodeTypesByUrl(attempt: Attempt<S>, nodeTypeUrls: seq<Url>)
      modifies this
      ensures Progress(repo, reported) == ByUrl(attempt, Progress(old(repo), old(reported)), nodeTypeUrls)
    {
      ghost var start := Progress(repo, reported);
      for i := 0 to |nodeTypeUrls|
        invariant Progress(repo, reported) == ByUrl(attempt, start, nodeTypeUrls[..i])
      {
        assert nodeTypeUrls[..i + 1][..i] == nodeTypeUrls[..i];
        var registered := attempt(repo, nodeTypeUrls[i]);
        repo := registered.repo;
        if registered.error.Some? {
          reported := reported + [RegistrationError(registered.error.value, nodeTypeUrls[i])];
        }
      }
      assert nodeTypeUrls[..|nodeTypeUrls|] == nodeTypeUrls;
    }
  }
}
