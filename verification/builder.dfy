/**
 * Building the closed package universe: a breadth-first walk from the root
 * package ids that fetches every package reachable through declared
 * dependencies, followed by the per-version choice of the dependency group
 * that applies to the project's target framework.
 *
 * The metadata provider is a parameter `fetch`; whatever prerelease flag and
 * version cap the caller passes are already bound inside it. A failed fetch
 * stops the build with that error, as the exception does in the source.
 */
module UniverseBuilder {
  import opened Wrappers
  import opened Domain
  import opened Frameworks

  type Fetch = PackageId -> Result<seq<PackageVersionNode>, FetchError>

  /** The ids `p`'s fetched versions declare as dependencies; none when the fetch fails. */
  function Successors(fetch: Fetch, p: PackageId): seq<PackageId> {
    match fetch(p)
    case Success(versions) => DependencyIdList(versions)
    case Failure(_) => []
  }

  /** The roots as the hash set the builder keeps. */
  function RootSet(roots: seq<PackageId>): (s: set<PackageId>)
    ensures forall x :: x in s <==> x in roots
  {
    set x | x in roots
  }

  /** The roots without repeats, first occurrence kept: the order the builder's hash set enumerates them. */
  function Distinct(roots: seq<PackageId>): (s: seq<PackageId>)
    ensures forall x :: x in s <==> x in roots
    ensures forall i, j | 0 <= i < j < |s| :: s[i] != s[j]
  {
    if |roots| == 0 then []
    else
      var prefix := Distinct(roots[..|roots| - 1]);
      var last := roots[|roots| - 1];
      assert forall x | x in roots[..|roots| - 1] :: x in roots;
      assert forall x | x in roots :: x in roots[..|roots| - 1] || x == last;
      if last in prefix then prefix else prefix + [last]
  }

  /** Every dependency declared by a member of `s` is itself in `s`. */
  ghost predicate Closed(s: set<PackageId>, fetch: Fetch) {
    forall p, x | p in s && x in Successors(fetch, p) :: x in s
  }

  /** `p` lies in every dependency-closed set that contains the roots: it is reachable from them. */
  ghost predicate Reachable(roots: set<PackageId>, fetch: Fetch, p: PackageId) {
    forall s: set<PackageId> {:trigger Closed(s, fetch)} | roots <= s && Closed(s, fetch) :: p in s
  }

  /** A dependency of a reachable package is reachable. */
  lemma ReachStep(roots: set<PackageId>, fetch: Fetch, p: PackageId, x: PackageId)
    requires Reachable(roots, fetch, p) && x in Successors(fetch, p)
    ensures Reachable(roots, fetch, x)
  {
    forall s: set<PackageId> | roots <= s && Closed(s, fetch)
      ensures x in s
    {
      assert p in s;
    }
  }

  /**
   * The dependency list recorded for one version: the dependencies of the
   * group nearest to the project's framework, or none when no group applies.
   */
  function EffectiveList<F(!new)>(node: PackageVersionNode, project: F, reducer: Reducer<F>): (ds: seq<DependencyInfo>)
    requires NearestIsCandidate(reducer)
    ensures |node.dependencyGroups| == 0 ==> ds == []
    ensures forall d | d in ds :: exists g | g in node.dependencyGroups :: d in g.dependencies
  {
    match SelectNearestDependencyGroup(node.dependencyGroups, project, reducer)
    case Some(g) => g.dependencies
    case None => []
  }

  /** One effective dependency list per (package, index) of the candidates. */
  function EffectiveDependencies<F(!new)>(
    candidates: map<PackageId, seq<PackageVersionNode>>, project: F, reducer: Reducer<F>)
    : (eff: map<(PackageId, int), seq<DependencyInfo>>)
    requires NearestIsCandidate(reducer)
    ensures eff.Keys == VersionKeys(candidates)
    ensures forall p, i | p in candidates && 0 <= i < |candidates[p]| ::
      eff[(p, i)] == EffectiveList(candidates[p][i], project, reducer)
  {
    map k | k in VersionKeys(candidates) :: EffectiveList(candidates[k.0][k.1], project, reducer)
  }

  /** When the candidates are closed under declared dependencies, so are the effective lists. */
  lemma {:induction false} EffectiveClosed<F(!new)>(
    candidates: map<PackageId, seq<PackageVersionNode>>, top: set<PackageId>, project: F, reducer: Reducer<F>)
    requires NearestIsCandidate(reducer)
    requires forall p, x | p in candidates && x in DependencyIdList(candidates[p]) :: x in candidates
    ensures EffectivelyClosed(PackageUniverse(candidates, top, EffectiveDependencies(candidates, project, reducer)))
  {
    var eff := EffectiveDependencies(candidates, project, reducer);
    forall k: (PackageId, int), d: DependencyInfo | k in eff && d in eff[k]
      ensures d.packageId in candidates
    {
      var p, i := k.0, k.1;
      assert k in VersionKeys(candidates);
      var node := candidates[p][i];
      var g :| g in node.dependencyGroups && d in g.dependencies;
      assert node in candidates[p];
      assert Declares(candidates[p], d.packageId);
      DependencyIdListMembers(candidates[p], d.packageId);
    }
  }

  /** Queues, in order, every dependency id that is not yet a key of `candidates`. */
  method EnqueueMissing(work: seq<PackageId>, deps: seq<PackageId>, candidates: map<PackageId, seq<PackageVersionNode>>)
    returns (work': seq<PackageId>)
    ensures |work| <= |work'| && work'[..|work|] == work
    ensures forall i | |work| <= i < |work'| :: work'[i] in deps && work'[i] !in candidates
    ensures forall x | x in deps :: x in candidates || x in work'
  {
    work' := work;
    var j := 0;
    while j < |deps|
      invariant 0 <= j <= |deps|
      invariant |work| <= |work'| && work'[..|work|] == work
      invariant forall i | |work| <= i < |work'| :: work'[i] in deps[..j] && work'[i] !in candidates
      invariant forall i | 0 <= i < j :: deps[i] in candidates || deps[i] in work'
    {
      if deps[j] !in candidates {
        work' := work' + [deps[j]];
      }
      j := j + 1;
    }
  }

  /**
   * What the fetch loop keeps true: everything fetched or queued is reachable
   * and inside `bound`, every root is fetched or queued, each fetched package
   * holds what `fetch` returned, and each of its dependencies is fetched or queued.
   */
  ghost predicate Frontier(
    roots: seq<PackageId>, fetch: Fetch, bound: set<PackageId>,
    candidates: map<PackageId, seq<PackageVersionNode>>, work: seq<PackageId>)
  {
    && candidates.Keys <= bound
    && (forall i | 0 <= i < |work| :: work[i] in bound && Reachable(RootSet(roots), fetch, work[i]))
    && (forall x | x in roots :: x in candidates || x in work)
    && (forall p | p in candidates :: fetch(p) == Success(candidates[p]) && Reachable(RootSet(roots), fetch, p))
    && (forall p, x | p in candidates && x in DependencyIdList(candidates[p]) :: x in candidates || x in work)
  }

  /** A queue holding exactly the roots starts the walk. */
  lemma FrontierStart(roots: seq<PackageId>, fetch: Fetch, bound: set<PackageId>, work: seq<PackageId>)
    requires forall x | x in roots :: x in bound
    requires forall x :: x in work <==> x in roots
    ensures Frontier(roots, fetch, bound, map[], work)
  {
    forall i | 0 <= i < |work|
      ensures work[i] in bound && Reachable(RootSet(roots), fetch, work[i])
    {
      assert work[i] in roots;
      forall s: set<PackageId> | RootSet(roots) <= s && Closed(s, fetch)
        ensures work[i] in s
      {
        assert work[i] in RootSet(roots);
      }
    }
  }

  /** Dequeuing an id that is already fetched keeps the frontier. */
  lemma {:induction false} FrontierSkip(
    roots: seq<PackageId>, fetch: Fetch, bound: set<PackageId>,
    candidates: map<PackageId, seq<PackageVersionNode>>, work: seq<PackageId>)
    requires Frontier(roots, fetch, bound, candidates, work)
    requires |work| > 0 && work[0] in candidates
    ensures Frontier(roots, fetch, bound, candidates, work[1..])
  {
    forall x | x in work
      ensures x in candidates || x in work[1..]
    {
      var i :| 0 <= i < |work| && work[i] == x;
      if i > 0 {
        assert work[1..][i - 1] == x;
      }
    }
  }

  /** Recording a successful fetch of the dequeued id and queuing its missing dependencies keeps the frontier. */
  lemma {:induction false} FrontierRecord(
    roots: seq<PackageId>, fetch: Fetch, bound: set<PackageId>,
    candidates: map<PackageId, seq<PackageVersionNode>>, work: seq<PackageId>,
    versions: seq<PackageVersionNode>, work': seq<PackageId>)
    requires Frontier(roots, fetch, bound, candidates, work)
    requires Closed(bound, fetch)
    requires |work| > 0 && work[0] !in candidates && fetch(work[0]) == Success(versions)
    requires |work| - 1 <= |work'| && work'[..|work| - 1] == work[1..]
    requires forall i | |work| - 1 <= i < |work'| :: work'[i] in DependencyIdList(versions)
    requires forall x | x in DependencyIdList(versions) :: x in candidates[work[0] := versions] || x in work'
    ensures Frontier(roots, fetch, bound, candidates[work[0] := versions], work')
  {
    var pid := work[0];
    var candidates' := candidates[pid := versions];
    assert DependencyIdList(versions) == Successors(fetch, pid);
    forall i | 0 <= i < |work'|
      ensures work'[i] in bound && Reachable(RootSet(roots), fetch, work'[i])
    {
      if i < |work| - 1 {
        assert work'[i] == work[i + 1];
      } else {
        ReachStep(RootSet(roots), fetch, pid, work'[i]);
      }
    }
    forall x | x in work
      ensures x in candidates' || x in work'
    {
      var i :| 0 <= i < |work| && work[i] == x;
      if i > 0 {
        assert work'[i - 1] == x;
      }
    }
    forall p, x | p in candidates' && x in DependencyIdList(candidates'[p])
      ensures x in candidates' || x in work'
    {
      if p != pid {
        assert p in candidates;
      }
    }
  }

  /** The last id handed to the provider is the one whose fetch failed with `e`. */
  ghost predicate FailedLast(fetch: Fetch, fetched: seq<PackageId>, e: FetchError) {
    |fetched| > 0 && fetch(fetched[|fetched| - 1]) == Failure(e)
  }

  /** `fetched` lists the ids in `seen`, each once. */
  ghost predicate FetchLog(fetched: seq<PackageId>, seen: set<PackageId>) {
    && (forall p :: p in seen <==> p in fetched)
    && (forall i, j | 0 <= i < j < |fetched| :: fetched[i] != fetched[j])
  }

  lemma FetchLogAppend(fetched: seq<PackageId>, seen: set<PackageId>, p: PackageId)
    requires FetchLog(fetched, seen) && p !in seen
    ensures FetchLog(fetched + [p], seen + {p})
  {
  }

  /** The head of the queue is reachable and inside `bound`. */
  lemma FrontierHead(
    roots: seq<PackageId>, fetch: Fetch, bound: set<PackageId>,
    candidates: map<PackageId, seq<PackageVersionNode>>, work: seq<PackageId>)
    requires Frontier(roots, fetch, bound, candidates, work) && |work| > 0
    ensures work[0] in bound && Reachable(RootSet(roots), fetch, work[0])
  {
  }

  /** A reachable package whose fetch fails makes the build fail with that error. */
  lemma FailureReported(roots: seq<PackageId>, fetch: Fetch, p: PackageId, e: FetchError)
    requires Reachable(RootSet(roots), fetch, p) && fetch(p) == Failure(e)
    ensures !forall q | Reachable(RootSet(roots), fetch, q) :: fetch(q).Success?
    ensures exists q | Reachable(RootSet(roots), fetch, q) :: fetch(q) == Failure(e)
  {
  }

  /** With nothing left to fetch, the fetched packages are exactly the reachable ones. */
  lemma FrontierDone(
    roots: seq<PackageId>, fetch: Fetch, bound: set<PackageId>, candidates: map<PackageId, seq<PackageVersionNode>>)
    requires Frontier(roots, fetch, bound, candidates, [])
    ensures forall p :: p in candidates <==> Reachable(RootSet(roots), fetch, p)
  {
    assert Closed(candidates.Keys, fetch);
    assert RootSet(roots) <= candidates.Keys;
  }

  /**
   * One turn of the fetch loop: dequeue an id; skip it when already seen,
   * otherwise fetch it, record its versions and queue its dependencies that
   * are not yet keys. A failed fetch is returned as `failure`.
   */
  method Visit(
    roots: seq<PackageId>, fetch: Fetch, ghost bound: set<PackageId>,
    candidates: map<PackageId, seq<PackageVersionNode>>, work: seq<PackageId>,
    seen: set<PackageId>, fetched: seq<PackageId>)
    returns (failure: Option<FetchError>, candidates': map<PackageId, seq<PackageVersionNode>>,
             work': seq<PackageId>, seen': set<PackageId>, fetched': seq<PackageId>)
    requires Closed(bound, fetch) && |work| > 0
    requires seen == candidates.Keys && FetchLog(fetched, seen)
    requires Frontier(roots, fetch, bound, candidates, work)
    ensures FetchLog(fetched', seen')
    ensures failure.Some? ==>
      FailedLast(fetch, fetched', failure.value) && Reachable(RootSet(roots), fetch, fetched'[|fetched'| - 1])
    ensures failure.None? ==> seen' == candidates'.Keys && Frontier(roots, fetch, bound, candidates', work')
    ensures failure.None? ==> |bound - seen'| < |bound - seen| || (seen' == seen && |work'| < |work|)
  {
    var pid := work[0];
    FrontierHead(roots, fetch, bound, candidates, work);
    if pid in seen {
      FrontierSkip(roots, fetch, bound, candidates, work);
      return None, candidates, work[1..], seen, fetched;
    }
    assert bound - (seen + {pid}) < bound - seen;
    FetchLogAppend(fetched, seen, pid);
    seen' := seen + {pid};
    fetched' := fetched + [pid];
    var result := fetch(pid);
    if result.Failure? {
      return Some(result.error), candidates, work, seen', fetched';
    }
    var versions := result.value;
    candidates' := candidates[pid := versions];
    work' := EnqueueMissing(work[1..], DependencyIdList(versions), candidates');
    FrontierRecord(roots, fetch, bound, candidates, work, versions, work');
    failure := None;
  }

  /**
   * The fetch loop. `bound` is any finite set of ids that contains the roots
   * and is closed under declared dependencies; its existence is what makes
   * the walk finish (without it the source would fetch forever). `fetched`
   * lists the ids handed to the provider, in order.
   */
  method FetchReachable(roots: seq<PackageId>, fetch: Fetch, ghost bound: set<PackageId>)
    returns (r: Result<map<PackageId, seq<PackageVersionNode>>, FetchError>, fetched: seq<PackageId>)
    requires forall x | x in roots :: x in bound
    requires Closed(bound, fetch)
    ensures forall i, j | 0 <= i < j < |fetched| :: fetched[i] != fetched[j]
    ensures r.Success? ==> forall p :: p in r.value <==> p in fetched
    ensures r.Failure? ==> FailedLast(fetch, fetched, r.error)
    ensures r.Success? <==> forall p | Reachable(RootSet(roots), fetch, p) :: fetch(p).Success?
    ensures r.Failure? ==> exists p | Reachable(RootSet(roots), fetch, p) :: fetch(p) == Failure(r.error)
    ensures r.Success? ==> forall p :: p in r.value <==> Reachable(RootSet(roots), fetch, p)
    ensures r.Success? ==> forall p | p in r.value :: fetch(p) == Success(r.value[p])
  {
    var candidates: map<PackageId, seq<PackageVersionNode>> := map[];
    var work := Distinct(roots);
    var seen: set<PackageId> := {};
    fetched := [];
    FrontierStart(roots, fetch, bound, work);
    while |work| > 0
      invariant seen == candidates.Keys
      invariant FetchLog(fetched, seen)
      invariant Frontier(roots, fetch, bound, candidates, work)
      decreases |bound - seen|, |work|
    {
      var failure;
      failure, candidates, work, seen, fetched := Visit(roots, fetch, bound, candidates, work, seen, fetched);
      if failure.Some? {
        FailureReported(roots, fetch, fetched[|fetched| - 1], failure.value);
        return Failure(failure.value), fetched;
      }
    }
    FrontierDone(roots, fetch, bound, candidates);
    r := Success(candidates);
  }

  /** Every package that any group of any candidate version depends on is itself a candidate. */
  ghost predicate DeclarationsClosed(candidates: map<PackageId, seq<PackageVersionNode>>) {
    forall p, x | p in candidates && Declares(candidates[p], x) :: x in candidates
  }

  /** The builder: fetch everything reachable, then record each version's effective dependencies. */
  method BuildUniverse<F(!new)>(
    roots: seq<PackageId>, fetch: Fetch, reducer: Reducer<F>, project: F, ghost bound: set<PackageId>)
    returns (r: Result<PackageUniverse, FetchError>)
    requires NearestIsCandidate(reducer)
    requires forall x | x in roots :: x in bound
    requires Closed(bound, fetch)
    ensures r.Success? <==> forall p | Reachable(RootSet(roots), fetch, p) :: fetch(p).Success?
    ensures r.Failure? ==> exists p | Reachable(RootSet(roots), fetch, p) :: fetch(p) == Failure(r.error)
    ensures r.Success? ==> r.value.topLevelPackages == RootSet(roots)
    ensures r.Success? ==> forall p :: p in r.value.candidatesByPackage <==> Reachable(RootSet(roots), fetch, p)
    ensures r.Success? ==> forall p | p in r.value.candidatesByPackage ::
      fetch(p) == Success(r.value.candidatesByPackage[p])
    ensures r.Success? ==> r.value.effectiveDependencies == EffectiveDependencies(r.value.candidatesByPackage, project, reducer)
    ensures r.Success? ==> WellFormed(r.value) && EffectivelyClosed(r.value)
    ensures r.Success? ==> DeclarationsClosed(r.value.candidatesByPackage)
  {
    var reached, _ := FetchReachable(roots, fetch, bound);
    if reached.Failure? {
      return Failure(reached.error);
    }
    var candidates := reached.value;
    var rootSet := RootSet(roots);
    forall p, x | p in candidates && Declares(candidates[p], x)
      ensures x in candidates
    {
      DependencyIdListMembers(candidates[p], x);
      assert x in Successors(fetch, p);
      ReachStep(rootSet, fetch, p, x);
    }
    forall x | x in rootSet
      ensures x in candidates
    {
      forall s: set<PackageId> | rootSet <= s && Closed(s, fetch)
        ensures x in s
      {
      }
    }
    EffectiveClosed(candidates, rootSet, project, reducer);
    r := Success(PackageUniverse(candidates, rootSet, EffectiveDependencies(candidates, project, reducer)));
  }
}
