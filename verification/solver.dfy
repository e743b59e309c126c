/**
 * The "newest compatible versions" problem the resolver hands to an SMT
 * solver, stated directly: one index variable per package, domain and
 * dependency constraints, and the sum of the top-level indices to maximise.
 * The solver itself is replaced by an exhaustive search whose answer is
 * proved feasible and optimal.
 */
module Solver {
  import opened Wrappers
  import opened Versions
  import opened Domain

  /** One chosen candidate index per package. */
  type Assignment = map<PackageId, int>

  /** Implication in the form the encoding builds it: `!a || b`. */
  function Implies(a: bool, b: bool): (r: bool)
    ensures r <==> (a ==> b)
  {
    !a || b
  }

  /**
   * Domain constraints: every package of the universe has a variable, and it
   * names one of that package's candidates. A package with no candidates
   * admits no value at all.
   */
  predicate InDomain(u: PackageUniverse, a: Assignment) {
    && a.Keys == u.candidatesByPackage.Keys
    && forall p | p in a :: 0 <= a[p] < |u.candidatesByPackage[p]|
  }

  /** The candidate indices whose version the range admits; a missing range admits every index. */
  function AllowedIndices(range: Option<VersionRange>, versions: seq<PackageVersionNode>): (s: set<int>)
    ensures forall j :: j in s ==> 0 <= j < |versions|
  {
    set j | 0 <= j < |versions| && Allows(range, versions[j].version)
  }

  /**
   * What one dependency demands: its package is a candidate with at least
   * one version, and the index chosen for it is an allowed one.
   */
  predicate DependencyHolds(u: PackageUniverse, a: Assignment, d: DependencyInfo) {
    && d.packageId in u.candidatesByPackage
    && |u.candidatesByPackage[d.packageId]| > 0
    && d.packageId in a
    && a[d.packageId] in AllowedIndices(d.versionRange, u.candidatesByPackage[d.packageId])
  }

  /** For every key (p, i): choosing index i for p implies each of its effective dependencies. */
  predicate ImplicationsHold(u: PackageUniverse, a: Assignment) {
    forall k, d | k in u.effectiveDependencies && d in u.effectiveDependencies[k] ::
      Implies(k.0 in a && a[k.0] == k.1, DependencyHolds(u, a, d))
  }

  /** The conjunction of every constraint the encoding adds. */
  predicate Feasible(u: PackageUniverse, a: Assignment) {
    InDomain(u, a) && ImplicationsHold(u, a)
  }

  /** The packages whose indices are summed: the explicit set, else the top-level packages. */
  function ObjectivePackages(u: PackageUniverse, optimizeThesePackages: Option<set<PackageId>>): set<PackageId> {
    optimizeThesePackages.GetOr(u.topLevelPackages)
  }

  /** The sum of the chosen indices over `top`. */
  ghost function Objective(a: Assignment, top: set<PackageId>): int
    requires top <= a.Keys
    decreases top
  {
    if top == {} then 0
    else
      var p :| p in top;
      a[p] + Objective(a, top - {p})
  }

  /** The sum can be split at any member, whichever one the definition happened to pick. */
  lemma {:induction false} ObjectiveRemove(a: Assignment, top: set<PackageId>, p: PackageId)
    requires top <= a.Keys && p in top
    ensures Objective(a, top) == a[p] + Objective(a, top - {p})
    decreases top
  {
    var q :| q in top && Objective(a, top) == a[q] + Objective(a, top - {q});
    if q != p {
      ObjectiveRemove(a, top - {q}, p);
      ObjectiveRemove(a, top - {p}, q);
      assert top - {q} - {p} == top - {p} - {q};
    }
  }

  /** Only the indices of the summed packages matter: transitive-only packages do not contribute. */
  lemma {:induction false} ObjectiveOnlyTop(a: Assignment, b: Assignment, top: set<PackageId>)
    requires top <= a.Keys && top <= b.Keys
    requires forall p | p in top :: a[p] == b[p]
    ensures Objective(a, top) == Objective(b, top)
    decreases top
  {
    if top != {} {
      var p :| p in top;
      ObjectiveRemove(a, top, p);
      ObjectiveRemove(b, top, p);
      ObjectiveOnlyTop(a, b, top - {p});
    }
  }

  /** Raising summed indices never lowers the sum. */
  lemma {:induction false} ObjectiveMonotone(a: Assignment, b: Assignment, top: set<PackageId>)
    requires top <= a.Keys && top <= b.Keys
    requires forall p | p in top :: a[p] <= b[p]
    ensures Objective(a, top) <= Objective(b, top)
    decreases top
  {
    if top != {} {
      var p :| p in top;
      ObjectiveRemove(a, top, p);
      ObjectiveRemove(b, top, p);
      ObjectiveMonotone(a, b, top - {p});
    }
  }

  /** Evaluates the objective at `a`. */
  method ObjectiveOf(a: Assignment, top: set<PackageId>) returns (v: int)
    requires top <= a.Keys
    ensures v == Objective(a, top)
  {
    v := 0;
    var rest := top;
    while rest != {}
      invariant rest <= top
      invariant v + Objective(a, rest) == Objective(a, top)
      decreases rest
    {
      var p :| p in rest;
      ObjectiveRemove(a, rest, p);
      v := v + a[p];
      rest := rest - {p};
    }
  }

  // ----- Enumerating the assignments -----

  /** Every assignment of `rest`, extended with each index below `n` for `p`. */
  function Extend(rest: seq<Assignment>, p: PackageId, n: nat): seq<Assignment> {
    if n == 0 then []
    else Extend(rest, p, n - 1) + seq(|rest|, i requires 0 <= i < |rest| => rest[i][p := n - 1])
  }

  lemma {:induction false} ExtendContains(rest: seq<Assignment>, p: PackageId, n: nat, i: nat, j: nat)
    requires i < |rest| && j < n
    ensures rest[i][p := j] in Extend(rest, p, n)
  {
    if j == n - 1 {
      var block := seq(|rest|, i requires 0 <= i < |rest| => rest[i][p := n - 1]);
      assert block[i] == rest[i][p := j];
      assert Extend(rest, p, n) == Extend(rest, p, n - 1) + block;
    } else {
      ExtendContains(rest, p, n - 1, i, j);
    }
  }

  lemma {:induction false} ExtendMember(rest: seq<Assignment>, p: PackageId, n: nat, m: Assignment) returns (i: nat, j: nat)
    requires m in Extend(rest, p, n)
    ensures i < |rest| && j < n && m == rest[i][p := j]
  {
    var block := seq(|rest|, i requires 0 <= i < |rest| => rest[i][p := n - 1]);
    assert Extend(rest, p, n) == Extend(rest, p, n - 1) + block;
    if m in Extend(rest, p, n - 1) {
      i, j := ExtendMember(rest, p, n - 1, m);
    } else {
      var k :| 0 <= k < |block| && block[k] == m;
      i, j := k, n - 1;
    }
  }

  /** All assignments of an index below `|candidates[p]|` to each `p` of `ps`. */
  function Assignments(ps: seq<PackageId>, candidates: map<PackageId, seq<PackageVersionNode>>): seq<Assignment>
    requires forall i | 0 <= i < |ps| :: ps[i] in candidates
  {
    if |ps| == 0 then [map[]]
    else Extend(Assignments(ps[1..], candidates), ps[0], |candidates[ps[0]]|)
  }

  /** `a` gives each package of `ps`, and nothing else, one of its candidate indices. */
  ghost predicate Covers(ps: seq<PackageId>, candidates: map<PackageId, seq<PackageVersionNode>>, a: Assignment) {
    && (forall p :: p in a <==> p in ps)
    && forall p | p in a :: p in candidates && 0 <= a[p] < |candidates[p]|
  }

  /** Everything enumerated is a covering assignment. */
  lemma {:induction false} AssignmentsSound(ps: seq<PackageId>, candidates: map<PackageId, seq<PackageVersionNode>>, a: Assignment)
    requires forall i | 0 <= i < |ps| :: ps[i] in candidates
    requires a in Assignments(ps, candidates)
    ensures Covers(ps, candidates, a)
  {
    if |ps| > 0 {
      var rest := Assignments(ps[1..], candidates);
      var i, j := ExtendMember(rest, ps[0], |candidates[ps[0]]|, a);
      AssignmentsSound(ps[1..], candidates, rest[i]);
      forall p
        ensures p in a <==> p in ps
      {
        if p in ps && p != ps[0] {
          var k :| 0 <= k < |ps| && ps[k] == p;
          assert ps[1..][k - 1] == p;
        }
      }
    }
  }

  /** Dropping the first package of a repeat-free list from a covering assignment covers the rest. */
  lemma {:induction false} CoversTail(ps: seq<PackageId>, candidates: map<PackageId, seq<PackageVersionNode>>, a: Assignment)
    requires |ps| > 0
    requires forall i, j | 0 <= i < j < |ps| :: ps[i] != ps[j]
    requires Covers(ps, candidates, a)
    ensures Covers(ps[1..], candidates, a - {ps[0]})
  {
    var a' := a - {ps[0]};
    forall q
      ensures q in a' <==> q in ps[1..]
    {
      if q in ps[1..] {
        var k :| 0 <= k < |ps[1..]| && ps[1..][k] == q;
        assert ps[k + 1] == q;
      }
      if q in a' {
        var k :| 0 <= k < |ps| && ps[k] == q;
        assert ps[1..][k - 1] == q;
      }
    }
  }

  /** Every covering assignment is enumerated, provided `ps` has no repeats. */
  lemma {:induction false} AssignmentsComplete(ps: seq<PackageId>, candidates: map<PackageId, seq<PackageVersionNode>>, a: Assignment)
    requires forall i | 0 <= i < |ps| :: ps[i] in candidates
    requires forall i, j | 0 <= i < j < |ps| :: ps[i] != ps[j]
    requires Covers(ps, candidates, a)
    ensures a in Assignments(ps, candidates)
  {
    if |ps| == 0 {
      assert a == map[];
    } else {
      var p := ps[0];
      var a' := a - {p};
      CoversTail(ps, candidates, a);
      AssignmentsComplete(ps[1..], candidates, a');
      var rest := Assignments(ps[1..], candidates);
      var i :| 0 <= i < |rest| && rest[i] == a';
      ExtendContains(rest, p, |candidates[p]|, i, a[p]);
      assert a'[p := a[p]] == a;
    }
  }

  /** The candidate packages, each once, in some order. */
  method PackageOrder(candidates: map<PackageId, seq<PackageVersionNode>>) returns (ps: seq<PackageId>)
    ensures forall p :: p in ps <==> p in candidates
    ensures forall i, j | 0 <= i < j < |ps| :: ps[i] != ps[j]
  {
    ps := [];
    var rest := candidates.Keys;
    while rest != {}
      invariant rest <= candidates.Keys
      invariant forall p :: p in ps <==> p in candidates && p !in rest
      invariant forall i, j | 0 <= i < j < |ps| :: ps[i] != ps[j]
      decreases rest
    {
      var p :| p in rest;
      ps := ps + [p];
      rest := rest - {p};
    }
  }

  // ----- The result -----

  datatype Selection = Selection(index: int, version: string)

  datatype Solution = Solution(selectionByPackage: map<PackageId, Selection>, objectiveValue: int)

  /**
   * Why no solution is returned: a package the encoding looks up is not a
   * candidate (the dictionary lookup fails), or no assignment satisfies the
   * constraints.
   */
  datatype SolveError = UnknownPackage(packageId: PackageId) | Infeasible

  /** Every package the encoding looks up, in effective keys and in the objective, is a candidate. */
  predicate Known(u: PackageUniverse, top: set<PackageId>) {
    && (forall k | k in u.effectiveDependencies :: k.0 in u.candidatesByPackage)
    && top <= u.candidatesByPackage.Keys
  }

  /** `a` is feasible and no feasible assignment has a larger objective. */
  ghost predicate Optimal(u: PackageUniverse, top: set<PackageId>, a: Assignment) {
    && Feasible(u, a)
    && top <= a.Keys
    && forall b | Feasible(u, b) && top <= b.Keys :: Objective(b, top) <= Objective(a, top)
  }

  /** The reported selection: each package's chosen index and that candidate's normalised version. */
  function Project(u: PackageUniverse, a: Assignment): (sel: map<PackageId, Selection>)
    requires InDomain(u, a)
    ensures sel.Keys == u.candidatesByPackage.Keys
  {
    map p | p in u.candidatesByPackage :: Selection(a[p], u.candidatesByPackage[p][a[p]].version.normalized)
  }

  /** The indices of a selection, as an assignment. */
  function SelectedIndices(sel: map<PackageId, Selection>): (a: Assignment)
    ensures a.Keys == sel.Keys
  {
    map p | p in sel :: sel[p].index
  }

  /** Reading the indices back out of a projected selection gives the assignment it came from. */
  lemma ProjectRoundTrip(u: PackageUniverse, a: Assignment)
    requires InDomain(u, a)
    ensures SelectedIndices(Project(u, a)) == a
    ensures forall p | p in a :: Project(u, a)[p].version == u.candidatesByPackage[p][a[p]].version.normalized
  {
  }

  /** No feasible assignment among the first `n` of `tried` beats `value`. */
  ghost predicate NoBetter(u: PackageUniverse, top: set<PackageId>, tried: seq<Assignment>, n: nat, value: int)
    requires n <= |tried|
  {
    forall j | 0 <= j < n && Feasible(u, tried[j]) ::
      top <= tried[j].Keys && Objective(tried[j], top) <= value
  }

  /** The best feasible assignment of a list, by the objective over `top`; the first one wins a tie. */
  method BestOf(u: PackageUniverse, top: set<PackageId>, tried: seq<Assignment>) returns (best: Option<Assignment>)
    requires top <= u.candidatesByPackage.Keys
    ensures best.None? ==> forall j | 0 <= j < |tried| :: !Feasible(u, tried[j])
    ensures best.Some? ==> best.value in tried && Feasible(u, best.value) && top <= best.value.Keys
    ensures best.Some? ==> NoBetter(u, top, tried, |tried|, Objective(best.value, top))
  {
    best := None;
    var bestValue := 0;
    for i := 0 to |tried|
      invariant best.Some? ==> best.value in tried && Feasible(u, best.value) && top <= best.value.Keys
      invariant best.Some? ==> bestValue == Objective(best.value, top)
      invariant best.None? ==> forall j | 0 <= j < i :: !Feasible(u, tried[j])
      invariant best.Some? ==> NoBetter(u, top, tried, i, bestValue)
    {
      if Feasible(u, tried[i]) {
        var v := ObjectiveOf(tried[i], top);
        if best.None? || v > bestValue {
          best, bestValue := Some(tried[i]), v;
        }
      }
    }
  }

  /** Finds an optimal assignment by trying every in-domain assignment. */
  method BestAssignment(u: PackageUniverse, top: set<PackageId>) returns (best: Option<Assignment>)
    requires top <= u.candidatesByPackage.Keys
    ensures best.None? ==> forall a :: !Feasible(u, a)
    ensures best.Some? ==> Optimal(u, top, best.value)
  {
    var ps := PackageOrder(u.candidatesByPackage);
    var all := Assignments(ps, u.candidatesByPackage);
    best := BestOf(u, top, all);
    EnumerationComplete(u, ps);
  }

  /** Every feasible assignment is among those enumerated over a repeat-free list of the candidate packages. */
  lemma EnumerationComplete(u: PackageUniverse, ps: seq<PackageId>)
    requires forall p :: p in ps <==> p in u.candidatesByPackage
    requires forall i, j | 0 <= i < j < |ps| :: ps[i] != ps[j]
    ensures forall a | Feasible(u, a) :: a in Assignments(ps, u.candidatesByPackage)
  {
    forall a | Feasible(u, a)
      ensures a in Assignments(ps, u.candidatesByPackage)
    {
      AssignmentsComplete(ps, u.candidatesByPackage, a);
    }
  }

  /**
   * The solver: the constraints over the universe, maximised over the
   * explicit package set or, by default, the top-level packages.
   */
  method SolveForNewest(u: PackageUniverse, optimizeThesePackages: Option<set<PackageId>>)
    returns (r: Result<Solution, SolveError>)
    ensures r.Failure? && r.error.UnknownPackage? <==> !Known(u, ObjectivePackages(u, optimizeThesePackages))
    ensures r.Failure? && r.error.UnknownPackage? ==>
      && r.error.packageId !in u.candidatesByPackage
      && (r.error.packageId in ObjectivePackages(u, optimizeThesePackages)
          || exists k | k in u.effectiveDependencies :: k.0 == r.error.packageId)
    ensures r.Failure? && r.error.Infeasible? ==> forall a :: !Feasible(u, a)
    ensures r.Success? ==> r.value.selectionByPackage.Keys == u.candidatesByPackage.Keys
    ensures r.Success? ==>
      var a := SelectedIndices(r.value.selectionByPackage);
      && Optimal(u, ObjectivePackages(u, optimizeThesePackages), a)
      && r.value.objectiveValue == Objective(a, ObjectivePackages(u, optimizeThesePackages))
      && forall p | p in a :: r.value.selectionByPackage[p].version == u.candidatesByPackage[p][a[p]].version.normalized
  {
    var top := ObjectivePackages(u, optimizeThesePackages);
    if k :| k in u.effectiveDependencies && k.0 !in u.candidatesByPackage {
      return Failure(UnknownPackage(k.0));
    }
    if p :| p in top && p !in u.candidatesByPackage {
      return Failure(UnknownPackage(p));
    }
    var best := BestAssignment(u, top);
    match best {
      case None =>
        r := Failure(Infeasible);
      case Some(a) =>
        var value := ObjectiveOf(a, top);
        ProjectRoundTrip(u, a);
        r := Success(Solution(Project(u, a), value));
    }
  }

  // ----- Consequences of the encoding -----

  /** A package without candidates makes every assignment infeasible, even when nothing depends on it. */
  lemma EmptyCandidatesInfeasible(u: PackageUniverse, p: PackageId, a: Assignment)
    requires p in u.candidatesByPackage && |u.candidatesByPackage[p]| == 0
    ensures !Feasible(u, a)
  {
  }

  /** A dependency on a package that is missing or has no candidates rules out the version declaring it. */
  lemma MissingDependencyBlocks(u: PackageUniverse, a: Assignment, k: (PackageId, int), d: DependencyInfo)
    requires k in u.effectiveDependencies && d in u.effectiveDependencies[k]
    requires d.packageId !in u.candidatesByPackage || |u.candidatesByPackage[d.packageId]| == 0
    ensures Feasible(u, a) && k.0 in a ==> a[k.0] != k.1
  {
    if Feasible(u, a) {
      assert Implies(k.0 in a && a[k.0] == k.1, DependencyHolds(u, a, d));
    }
  }

  /** A dependency without a range is met by any index of its package. */
  lemma NullRangeAllowsEveryIndex(versions: seq<PackageVersionNode>, j: int)
    requires 0 <= j < |versions|
    ensures j in AllowedIndices(None, versions)
  {
  }
}
