/**
 * The data the resolver works on: package version nodes with their
 * per-framework dependency groups, and the closed `PackageUniverse` the
 * builder hands to the solver.
 *
 * Package ids are modelled as already case-folded strings, so the source's
 * case-insensitive comparers become plain equality.
 */
module Domain {
  import opened Wrappers
  import opened Versions

  type PackageId = string

  /** A target-framework moniker as it appears in a dependency group, e.g. "net8.0". */
  type Moniker = string

  /** The short folder name of NuGet's "any" framework. */
  const AnyMoniker: Moniker := "any"

  /**
   * One dependency edge. The two flags are carried but never consulted by
   * the builder or the solver.
   */
  datatype DependencyInfo = DependencyInfo(
    packageId: PackageId,
    versionRange: Option<VersionRange>,
    autoReferenced: bool,
    developmentDependency: bool)

  /** The dependencies a package version declares for one target framework. */
  datatype DependencyGroupInfo = DependencyGroupInfo(
    targetFrameworkMoniker: Moniker,
    dependencies: seq<DependencyInfo>)

  /** One concrete version of one package; `published` is a timestamp when known. */
  datatype PackageVersionNode = PackageVersionNode(
    packageId: PackageId,
    version: Version,
    sourceName: string,
    published: Option<int>,
    dependencyGroups: seq<DependencyGroupInfo>)

  /** Errors a metadata provider reports instead of a version list. */
  datatype FetchError =
    | ArgumentError(paramName: string)
    | SourceError(message: string)

  /**
   * The closed resolution problem: every package's candidate versions
   * (ascending, a version's position is its index), the requested roots, and
   * one already-resolved dependency list per (package, index).
   */
  datatype PackageUniverse = PackageUniverse(
    candidatesByPackage: map<PackageId, seq<PackageVersionNode>>,
    topLevelPackages: set<PackageId>,
    effectiveDependencies: map<(PackageId, int), seq<DependencyInfo>>)

  /** The (package, index) pairs that name a candidate version. */
  function VersionKeys(candidates: map<PackageId, seq<PackageVersionNode>>): set<(PackageId, int)> {
    set p, i | p in candidates && 0 <= i < |candidates[p]| :: (p, i)
  }

  /**
   * The shape every universe is meant to have: the roots are among the
   * candidates' keys, and there is exactly one effective dependency list per
   * candidate version and no other.
   */
  predicate WellFormed(u: PackageUniverse) {
    && u.topLevelPackages <= u.candidatesByPackage.Keys
    && u.effectiveDependencies.Keys == VersionKeys(u.candidatesByPackage)
  }

  /** Every package an effective dependency list mentions is itself a candidate. */
  predicate EffectivelyClosed(u: PackageUniverse) {
    forall k, d | k in u.effectiveDependencies && d in u.effectiveDependencies[k] ::
      d.packageId in u.candidatesByPackage
  }

  /** Versions listed strictly ascending, hence no two of them equal. */
  predicate StrictlyAscending(vs: seq<PackageVersionNode>) {
    forall i, j | 0 <= i < j < |vs| :: vs[i].version.rank < vs[j].version.rank
  }

  /** Dependency ids of one group, in declaration order. */
  function GroupDependencyIds(ds: seq<DependencyInfo>): (r: seq<PackageId>)
    ensures |r| == |ds|
    ensures forall i | 0 <= i < |ds| :: r[i] == ds[i].packageId
  {
    if |ds| == 0 then [] else [ds[0].packageId] + GroupDependencyIds(ds[1..])
  }

  /** Dependency ids of every group of one version, groups in order. */
  function NodeDependencyIds(gs: seq<DependencyGroupInfo>): seq<PackageId> {
    if |gs| == 0 then [] else GroupDependencyIds(gs[0].dependencies) + NodeDependencyIds(gs[1..])
  }

  /**
   * Dependency ids of every group of every version, in the order the builder
   * enumerates them (versions, then groups, then dependencies); may repeat.
   */
  function DependencyIdList(versions: seq<PackageVersionNode>): seq<PackageId> {
    if |versions| == 0 then []
    else NodeDependencyIds(versions[0].dependencyGroups) + DependencyIdList(versions[1..])
  }

  /** True when some dependency of some group of some version names `x`. */
  predicate Declares(versions: seq<PackageVersionNode>, x: PackageId) {
    exists v, g, d | v in versions && g in v.dependencyGroups && d in g.dependencies :: d.packageId == x
  }

  lemma {:induction false} NodeDependencyIdsMembers(gs: seq<DependencyGroupInfo>, x: PackageId)
    ensures x in NodeDependencyIds(gs) <==> exists g, d | g in gs && d in g.dependencies :: d.packageId == x
  {
    if |gs| > 0 {
      NodeDependencyIdsMembers(gs[1..], x);
      if x in GroupDependencyIds(gs[0].dependencies) {
        var i :| 0 <= i < |gs[0].dependencies| && GroupDependencyIds(gs[0].dependencies)[i] == x;
        assert gs[0] in gs && gs[0].dependencies[i] in gs[0].dependencies;
      }
      if exists g, d | g in gs && d in g.dependencies :: d.packageId == x {
        var g, d :| g in gs && d in g.dependencies && d.packageId == x;
        if g == gs[0] {
          var i :| 0 <= i < |g.dependencies| && g.dependencies[i] == d;
          assert GroupDependencyIds(gs[0].dependencies)[i] == x;
        } else {
          assert g in gs[1..];
        }
      }
    }
  }

  /** The enumeration the builder walks lists exactly the declared dependency ids. */
  lemma {:induction false} DependencyIdListMembers(versions: seq<PackageVersionNode>, x: PackageId)
    ensures x in DependencyIdList(versions) <==> Declares(versions, x)
  {
    if |versions| > 0 {
      DependencyIdListMembers(versions[1..], x);
      NodeDependencyIdsMembers(versions[0].dependencyGroups, x);
      if Declares(versions, x) {
        var v, g, d :| v in versions && g in v.dependencyGroups && d in g.dependencies && d.packageId == x;
        if v != versions[0] {
          assert v in versions[1..];
        }
      }
      if Declares(versions[1..], x) {
        var v, g, d :| v in versions[1..] && g in v.dependencyGroups && d in g.dependencies && d.packageId == x;
        assert v in versions;
      }
    }
  }
}
