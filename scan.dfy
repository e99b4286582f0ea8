/** `scanRepositories`: every listed repository whose name a retention
    policy matches (the first one, in declared order) goes through the
    expiration engine; the summaries are sorted stably by repository name
    and printed, and the expired identifiers are returned per repository. */
module Scan {
  import opened Wrappers
  import opened Seqs
  import opened StableSort
  import opened Image
  import opened Soci
  import opened Summary
  import opened Engine
  import opened Selection

  /** What the registry answers for a repository: its `DescribeImages`
      listing, the manifests `BatchGetImage` returns for it, and the error,
      if any, each `BatchGetImage` request returns. */
  datatype Registry = Registry(
    listingOf: string -> Result<seq<ImageDetail>>,
    manifestsOf: string -> Manifests,
    batchGetErrorOf: string -> (seq<string> -> Option<string>))

  function NameRule(name: string): Policy -> bool
  {
    (rc: Policy) => rc.matchName(name)
  }

  /** Some policy matches the repository name. */
  predicate Matched(rcs: seq<Policy>, name: string)
  {
    FirstIndex(rcs, NameRule(name)).Some?
  }

  function MatchedRule(rcs: seq<Policy>): string -> bool
  {
    (name: string) => Matched(rcs, name)
  }

  /** The scope the engine runs under for a matched repository: the first
      matching policy. */
  function ScopeOf(rcs: seq<Policy>, region: string, hold: set<string>, name: string): Scope
    requires Matched(rcs, name)
  {
    Scope(region, rcs[FirstIndex(rcs, NameRule(name)).value], hold)
  }

  /** Nothing the scan asks about repository `name` fails: when a policy
      matches it, its listing succeeds and every `BatchGetImage` request
      the engine can make for it succeeds. */
  ghost predicate RepositoryAnswers(rcs: seq<Policy>, region: string, hold: set<string>, reg: Registry, name: string)
  {
    Matched(rcs, name) ==>
      && reg.listingOf(name).Ok?
      && SociRequestsSucceed(reg.listingOf(name).value, ScopeOf(rcs, region, hold, name), reg.batchGetErrorOf(name))
  }

  /** The scan of repository `name` can fail with error `e`: a policy
      matches it and either its listing fails with `e` or a `BatchGetImage`
      request the engine can make for it does. */
  ghost predicate RepositoryFails(rcs: seq<Policy>, region: string, hold: set<string>, reg: Registry, name: string, e: string)
  {
    && Matched(rcs, name)
    && match reg.listingOf(name)
       case Err(le) => e == le
       case Ok(l) => SociRequestFails(l, ScopeOf(rcs, region, hold, name), reg.batchGetErrorOf(name), e)
  }

  /** The engine's identifiers for a matched repository whose listing
      succeeded (none otherwise). */
  ghost function ExpiredIdsOf(rcs: seq<Policy>, region: string, hold: set<string>, reg: Registry, name: string): seq<string>
  {
    if Matched(rcs, name) && reg.listingOf(name).Ok? then
      Digests(ExpiredRecords(reg.listingOf(name).value, ScopeOf(rcs, region, hold, name), reg.manifestsOf(name)))
    else []
  }

  /** The engine's summary for a matched repository whose listing succeeded
      (an empty one otherwise). */
  ghost function SummaryOf(rcs: seq<Policy>, region: string, hold: set<string>, reg: Registry, name: string): Summary
  {
    if Matched(rcs, name) && reg.listingOf(name).Ok? then
      var l := reg.listingOf(name).value;
      Tally(NewRepoSummary(name), Counted(l), ExpiredRecords(l, ScopeOf(rcs, region, hold, name), reg.manifestsOf(name)))
    else NewRepoSummary(name)
  }

  /** The summaries of the repositories `names`, in order. */
  ghost function Summaries(rcs: seq<Policy>, region: string, hold: set<string>, reg: Registry, names: seq<string>): seq<Summary>
  {
    if |names| == 0 then []
    else Summaries(rcs, region, hold, reg, names[..|names| - 1])
         + [SummaryOf(rcs, region, hold, reg, names[|names| - 1])]
  }

  /** `sums[i].Repo < sums[j].Repo` */
  predicate RepoBefore(a: Summary, b: Summary)
  {
    LexLess(a.repo, b.repo)
  }

  lemma RepoBeforeIsStrictWeakOrder()
    ensures StrictWeakOrder(RepoBefore)
  {
    LexLessIsStrictWeakOrder();
    forall a: Summary, b: Summary ensures Asymmetric(RepoBefore, a, b) {
      LexLessTrichotomy(a.repo, b.repo);
    }
    forall a: Summary, b: Summary, c: Summary ensures NegTransitive(RepoBefore, a, b, c) {
      assert NegTransitive(LexLess, a.repo, b.repo, c.repo);
    }
  }

  /** The printed summaries: one per matched repository, no repository
      without a matching policy, sorted by name, and repositories of equal
      name in scan order. */
  lemma {:induction false} SummariesOfMatched(rcs: seq<Policy>, region: string, hold: set<string>, reg: Registry,
                                              names: seq<string>, s: Summary)
    ensures |Summaries(rcs, region, hold, reg, names)| == |names|
    ensures s in Summaries(rcs, region, hold, reg, names) ==> s.repo in names
  {
    if |names| > 0 {
      SummariesOfMatched(rcs, region, hold, reg, names[..|names| - 1], s);
    }
  }

  lemma PrintedOrder(ss: seq<Summary>, e: Summary)
    ensures multiset(SortStable(ss, RepoBefore)) == multiset(ss)
    ensures Sorted(SortStable(ss, RepoBefore), RepoBefore)
    ensures ClassOf(SortStable(ss, RepoBefore), e, RepoBefore) == ClassOf(ss, e, RepoBefore)
  {
    RepoBeforeIsStrictWeakOrder();
    SortPermutes(ss, RepoBefore);
    SortSorted(ss, RepoBefore);
    SortKeepsClasses(ss, e, RepoBefore);
  }

  /** One repository of the scan: the first matching policy, then the
      engine. */
  method ScanRepository(name: string, rcs: seq<Policy>, region: string, hold: set<string>, reg: Registry)
    returns (matched: bool, imageIds: seq<string>, sum: Summary, err: Option<string>)
    ensures matched == Matched(rcs, name)
    ensures !matched ==> err.None?
    ensures matched && err.None? ==> reg.listingOf(name).Ok?
    ensures err.None? ==> imageIds == ExpiredIdsOf(rcs, region, hold, reg, name)
                          && sum == SummaryOf(rcs, region, hold, reg, name)
    ensures RepositoryAnswers(rcs, region, hold, reg, name) ==> err.None?
    ensures err.Some? ==> RepositoryFails(rcs, region, hold, reg, name, err.value)
                          && !RepositoryAnswers(rcs, region, hold, reg, name)
  {
    var k := FirstMatch(rcs, NameRule(name));
    matched := k.Some?;
    if !matched {
      return false, [], NewRepoSummary(name), None;
    }
    var sc := Scope(region, rcs[k.value], hold);
    imageIds, sum, err := UnusedImageIdentifiers(name, sc, reg.listingOf(name), reg.manifestsOf(name), reg.batchGetErrorOf(name));
  }

  /** `Filter` and `Summaries` grow by the next repository when it is
      matched, and stay put when it is not. */
  lemma ScanStep(rcs: seq<Policy>, region: string, hold: set<string>, reg: Registry, repos: seq<string>, i: nat)
    requires i < |repos|
    ensures Matched(rcs, repos[i]) ==>
              && Filter(repos[..i + 1], MatchedRule(rcs)) == Filter(repos[..i], MatchedRule(rcs)) + [repos[i]]
              && Summaries(rcs, region, hold, reg, Filter(repos[..i + 1], MatchedRule(rcs)))
                 == Summaries(rcs, region, hold, reg, Filter(repos[..i], MatchedRule(rcs)))
                    + [SummaryOf(rcs, region, hold, reg, repos[i])]
    ensures !Matched(rcs, repos[i]) ==> Filter(repos[..i + 1], MatchedRule(rcs)) == Filter(repos[..i], MatchedRule(rcs))
    ensures repos[..i + 1] == repos[..i] + [repos[i]]
  {
    assert repos[..i + 1][..i] == repos[..i];
    var before := Filter(repos[..i], MatchedRule(rcs));
    assert (before + [repos[i]])[..|before|] == before;
  }

  /** The repository loop of `scanRepositories`. */
  method ScanAll(repos: seq<string>, rcs: seq<Policy>, region: string, hold: set<string>, reg: Registry)
    returns (err: Option<string>, idsMaps: map<string, seq<string>>, sums: seq<Summary>)
    ensures err.None? ==> forall k :: 0 <= k < |repos| && Matched(rcs, repos[k]) ==> reg.listingOf(repos[k]).Ok?
    ensures err.None? ==> forall n :: n in idsMaps <==> n in repos && Matched(rcs, n)
    ensures err.None? ==> forall n :: n in idsMaps ==> idsMaps[n] == ExpiredIdsOf(rcs, region, hold, reg, n)
    ensures err.None? ==> sums == Summaries(rcs, region, hold, reg, Filter(repos, MatchedRule(rcs)))
    ensures (forall k :: 0 <= k < |repos| ==> RepositoryAnswers(rcs, region, hold, reg, repos[k])) ==> err.None?
    ensures err.Some? ==> exists k :: 0 <= k < |repos| && RepositoryFails(rcs, region, hold, reg, repos[k], err.value)
                                      && !RepositoryAnswers(rcs, region, hold, reg, repos[k])
  {
    idsMaps, sums := map[], [];
    for i := 0 to |repos|
      invariant forall n :: n in repos[..i] && Matched(rcs, n) ==> reg.listingOf(n).Ok?
      invariant forall n :: n in idsMaps <==> n in repos[..i] && Matched(rcs, n)
      invariant forall n :: n in idsMaps ==> idsMaps[n] == ExpiredIdsOf(rcs, region, hold, reg, n)
      invariant sums == Summaries(rcs, region, hold, reg, Filter(repos[..i], MatchedRule(rcs)))
    {
      var name := repos[i];
      ScanStep(rcs, region, hold, reg, repos, i);
      var matched, imageIds, sum, e := ScanRepository(name, rcs, region, hold, reg);
      if e.Some? {
        assert RepositoryFails(rcs, region, hold, reg, repos[i], e.value);
        return e, idsMaps, sums;
      }
      if !matched {
        continue;
      }
      sums := sums + [sum];
      idsMaps := idsMaps[name := imageIds];
    }
    assert repos[..|repos|] == repos;
    assert forall k :: 0 <= k < |repos| ==> repos[k] in repos;
    err := None;
  }

  /** `scanRepositories`. `repos` are the repository names of the
      `DescribeRepositories` pages fetched, and `listErr` the error of the
      page fetch that follows them, if any. `printed` are the summaries as
      handed to `print`, in order. */
  method ScanRepositories(repos: seq<string>, listErr: Option<string>, rcs: seq<Policy>, region: string,
                          hold: set<string>, reg: Registry, format: OutputFormat)
    returns (r: Result<map<string, seq<string>>>, printed: seq<Summary>)
    ensures r.Ok? ==> listErr.None? && Print(format).Ok?
    ensures r.Ok? ==> forall k :: 0 <= k < |repos| && Matched(rcs, repos[k]) ==> reg.listingOf(repos[k]).Ok?
    ensures r.Ok? ==> forall n :: n in r.value <==> n in repos && Matched(rcs, n)
    ensures r.Ok? ==> forall n :: n in r.value ==> r.value[n] == ExpiredIdsOf(rcs, region, hold, reg, n)
    ensures r.Ok? ==> printed == SortStable(Summaries(rcs, region, hold, reg, Filter(repos, MatchedRule(rcs))), RepoBefore)
    ensures r.Err? ==> printed == []
    ensures listErr.None? && Print(format).Ok?
            && (forall k :: 0 <= k < |repos| ==> RepositoryAnswers(rcs, region, hold, reg, repos[k]))
            ==> r.Ok?
    ensures r.Err? ==>
              || listErr == Some(r.error)
              || Print(format) == Err(r.error)
              || exists k :: 0 <= k < |repos| && RepositoryFails(rcs, region, hold, reg, repos[k], r.error)
                                               && !RepositoryAnswers(rcs, region, hold, reg, repos[k])
  {
    var err, idsMaps, sums := ScanAll(repos, rcs, region, hold, reg);
    if err.Some? {
      return Err(err.value), [];
    }
    if listErr.Some? {
      return Err(listErr.value), [];
    }
    printed := SortStable(sums, RepoBefore);
    var rendered := Print(format);
    if rendered.Err? {
      return Err(rendered.error), [];
    }
    r := Ok(idsMaps);
  }
}
