/**
 * Nearest-framework selection of a version's dependency group.
 *
 * NuGet's framework parsing, its `FrameworkReducer.GetNearest` and the
 * `IsAny` test are library behaviour; the model takes them as an oracle over
 * an abstract framework type `F`.
 */
module Frameworks {
  import opened Wrappers
  import opened Domain

  /**
   * The framework library as seen by the selection: how a moniker parses,
   * which of several candidate frameworks is nearest to a project framework
   * (if any is compatible), and which frameworks are "any".
   */
  datatype Reducer<!F(==)> = Reducer(
    parse: Moniker -> F,
    getNearest: (F, seq<F>) -> Option<F>,
    isAny: F -> bool)

  /** The library's contract for `GetNearest`: an answer is one of the candidates it was given. */
  ghost predicate NearestIsCandidate<F(!new)>(r: Reducer<F>) {
    forall project: F, fws: seq<F> ::
      r.getNearest(project, fws).Some? ==> r.getNearest(project, fws).value in fws
  }

  /** The position of the first group whose moniker parses to `n` (LINQ's `First` predicate). */
  function FirstWithFramework<F(==)>(groups: seq<DependencyGroupInfo>, r: Reducer<F>, n: F): (k: Option<nat>)
    ensures k.Some? ==> k.value < |groups| && r.parse(groups[k.value].targetFrameworkMoniker) == n
    ensures k.Some? ==> forall j | 0 <= j < k.value :: r.parse(groups[j].targetFrameworkMoniker) != n
    ensures k.None? <==> forall j | 0 <= j < |groups| :: r.parse(groups[j].targetFrameworkMoniker) != n
  {
    if |groups| == 0 then None
    else if r.parse(groups[0].targetFrameworkMoniker) == n then Some(0)
    else match FirstWithFramework(groups[1..], r, n)
      case None => None
      case Some(k) => Some(k + 1)
  }

  /** The position of the first group whose framework is "any" (LINQ's `FirstOrDefault` predicate). */
  function FirstAny<F(==)>(groups: seq<DependencyGroupInfo>, r: Reducer<F>): (k: Option<nat>)
    ensures k.Some? ==> k.value < |groups| && r.isAny(r.parse(groups[k.value].targetFrameworkMoniker))
    ensures k.Some? ==> forall j | 0 <= j < k.value :: !r.isAny(r.parse(groups[j].targetFrameworkMoniker))
    ensures k.None? <==> forall j | 0 <= j < |groups| :: !r.isAny(r.parse(groups[j].targetFrameworkMoniker))
  {
    if |groups| == 0 then None
    else if r.isAny(r.parse(groups[0].targetFrameworkMoniker)) then Some(0)
    else match FirstAny(groups[1..], r)
      case None => None
      case Some(k) => Some(k + 1)
  }

  /** Parses every group's moniker, in order. */
  function CandidateFrameworks<F(==)>(groups: seq<DependencyGroupInfo>, r: Reducer<F>): (fws: seq<F>)
    ensures |fws| == |groups|
    ensures forall i | 0 <= i < |groups| :: fws[i] == r.parse(groups[i].targetFrameworkMoniker)
  {
    seq(|groups|, i requires 0 <= i < |groups| => r.parse(groups[i].targetFrameworkMoniker))
  }

  /**
   * The dependency group of a package version that applies to `project`:
   * a synthetic empty "any" group when the version declares none; otherwise
   * the first group whose framework is the nearest one, or, when no
   * framework is compatible, the first "any" group, or nothing.
   */
  function SelectNearestDependencyGroup<F(!new)>(
    groups: seq<DependencyGroupInfo>, project: F, r: Reducer<F>): (res: Option<DependencyGroupInfo>)
    requires NearestIsCandidate(r)
    ensures |groups| == 0 ==> res == Some(DependencyGroupInfo(AnyMoniker, []))
    ensures |groups| > 0 && res.Some? ==> res.value in groups
    ensures |groups| > 0 ==>
      match r.getNearest(project, CandidateFrameworks(groups, r))
      case Some(n) =>
        exists k | 0 <= k < |groups| ::
          && res == Some(groups[k])
          && r.parse(groups[k].targetFrameworkMoniker) == n
          && forall j | 0 <= j < k :: r.parse(groups[j].targetFrameworkMoniker) != n
      case None =>
        && (res.None? <==> forall j | 0 <= j < |groups| :: !r.isAny(r.parse(groups[j].targetFrameworkMoniker)))
        && (res.Some? ==> exists k | 0 <= k < |groups| ::
              && res == Some(groups[k])
              && r.isAny(r.parse(groups[k].targetFrameworkMoniker))
              && forall j | 0 <= j < k :: !r.isAny(r.parse(groups[j].targetFrameworkMoniker)))
  {
    if |groups| == 0 then
      Some(DependencyGroupInfo(AnyMoniker, []))
    else
      var fws := CandidateFrameworks(groups, r);
      match r.getNearest(project, fws)
      case None =>
        (match FirstAny(groups, r)
         case None => None
         case Some(k) => Some(groups[k]))
      case Some(n) =>
        // n is one of fws, so some group parses to it and `First` finds it
        match FirstWithFramework(groups, r, n)
        case Some(k) => Some(groups[k])
        case None => assert false; None
  }

  /** Groups with the same monikers in the same order, whatever their dependencies. */
  predicate SameMonikers(g1: seq<DependencyGroupInfo>, g2: seq<DependencyGroupInfo>) {
    && |g1| == |g2|
    && forall i | 0 <= i < |g1| :: g1[i].targetFrameworkMoniker == g2[i].targetFrameworkMoniker
  }

  lemma {:induction false} FirstWithFrameworkByMoniker<F>(
    g1: seq<DependencyGroupInfo>, g2: seq<DependencyGroupInfo>, r: Reducer<F>, n: F)
    requires SameMonikers(g1, g2)
    ensures FirstWithFramework(g1, r, n) == FirstWithFramework(g2, r, n)
  {
    if |g1| > 0 {
      FirstWithFrameworkByMoniker(g1[1..], g2[1..], r, n);
    }
  }

  lemma {:induction false} FirstAnyByMoniker<F>(
    g1: seq<DependencyGroupInfo>, g2: seq<DependencyGroupInfo>, r: Reducer<F>)
    requires SameMonikers(g1, g2)
    ensures FirstAny(g1, r) == FirstAny(g2, r)
  {
    if |g1| > 0 {
      FirstAnyByMoniker(g1[1..], g2[1..], r);
    }
  }

  /**
   * The choice looks only at monikers: two group lists that differ only in
   * their dependency contents select the group at the same position.
   */
  lemma SelectionIgnoresDependencies<F(!new)>(
    g1: seq<DependencyGroupInfo>, g2: seq<DependencyGroupInfo>, project: F, r: Reducer<F>)
    requires NearestIsCandidate(r)
    requires SameMonikers(g1, g2) && |g1| > 0
    ensures SelectNearestDependencyGroup(g1, project, r).None? <==> SelectNearestDependencyGroup(g2, project, r).None?
    ensures SelectNearestDependencyGroup(g1, project, r).Some? ==>
      exists k | 0 <= k < |g1| ::
        SelectNearestDependencyGroup(g1, project, r) == Some(g1[k]) &&
        SelectNearestDependencyGroup(g2, project, r) == Some(g2[k])
  {
    var fws := CandidateFrameworks(g1, r);
    assert fws == CandidateFrameworks(g2, r);
    match r.getNearest(project, fws)
    case Some(n) =>
      FirstWithFrameworkByMoniker(g1, g2, r, n);
    case None =>
      FirstAnyByMoniker(g1, g2, r);
  }
}
